/** The compiled search plan: token classes, trie, failure links, propagated
    outputs and the optional dense transition table. */
module Plan {
  import opened Utf8
  import opened Spec
  import opened Automaton
  import opened Lexer
  import opened Trie
  import opened Links
  import Fold

  const MAX_DENSE_TRANSITIONS := 0x100000

  /** Where the row of a state begins in the dense table. */
  function Base(s: nat, stride: nat): nat {
    s * stride
  }

  lemma {:induction false} RowsApart(s: nat, s': nat, stride: nat)
    requires s < s'
    ensures Base(s, stride) + stride <= Base(s', stride)
  {
    assert s' * stride == s * stride + stride + (s' - s - 1) * stride;
    assert (s' - s - 1) * stride >= 0;
  }

  ghost predicate RowTargets(row: seq<nat>, words: seq<Word>, ix: map<Word, nat>, s: nat)
    requires WordIndex(words, ix) && s < |words|
  {
    forall t: nat :: t < |row| ==> row[t] == Target(words, ix, s, t)
  }

  /** A dense row holds the target of every transition out of its state. */
  ghost predicate RowHolds(dense: seq<nat>, words: seq<Word>, ix: map<Word, nat>, stride: nat, s: nat)
    requires WordIndex(words, ix) && s < |words|
  {
    && Base(s, stride) + stride <= |dense|
    && RowTargets(dense[Base(s, stride)..Base(s, stride) + stride], words, ix, s)
  }

  function Splice(dense: seq<nat>, base: nat, row: seq<nat>): seq<nat>
    requires base + |row| <= |dense|
  {
    dense[..base] + row + dense[base + |row|..]
  }

  lemma {:induction false} SpliceSlices(dense: seq<nat>, base: nat, row: seq<nat>, b: nat, n: nat)
    requires base + |row| <= |dense| && b + n <= |dense|
    ensures var dense' := Splice(dense, base, row);
            && |dense'| == |dense| && dense'[base..base + |row|] == row
            && (b + n <= base || base + |row| <= b ==> dense'[b..b + n] == dense[b..b + n])
  {
  }

  /** Writing one row leaves every other row as it was. */
  lemma {:induction false} SpliceRow(dense: seq<nat>, words: seq<Word>, ix: map<Word, nat>, stride: nat, s: nat, row: seq<nat>)
    requires WordIndex(words, ix) && s < |words| && |row| == stride && |dense| == Base(|words|, stride)
    requires RowTargets(row, words, ix, s)
    ensures Base(s, stride) + stride <= |dense|
    ensures var dense' := Splice(dense, Base(s, stride), row);
            |dense'| == |dense| && RowHolds(dense', words, ix, stride, s) &&
            forall r :: 0 <= r < |words| && r != s && RowHolds(dense, words, ix, stride, r) ==> RowHolds(dense', words, ix, stride, r)
  {
    hide WordIndex, Target, RowTargets, Base;
    RowsApart(s, |words|, stride);
    var base := Base(s, stride);
    var dense' := Splice(dense, base, row);
    SpliceSlices(dense, base, row, base, stride);
    forall r | 0 <= r < |words| && r != s && RowHolds(dense, words, ix, stride, r)
      ensures RowHolds(dense', words, ix, stride, r)
    {
      if r < s { RowsApart(r, s, stride); } else { RowsApart(s, r, stride); }
      SpliceSlices(dense, base, row, Base(r, stride), stride);
    }
  }

  ghost predicate Overrides(row: seq<nat>, from: seq<nat>, edges: map<nat, nat>) {
    |row| == |from| && forall t: nat :: t < |row| ==> row[t] == if t in edges then edges[t] else from[t]
  }

  /** A failure row overridden by a state's own edges is that state's row. */
  lemma {:induction false} OverrideTargets(nodes: seq<Node>, words: seq<Word>, ix: map<Word, nat>, s: nat, f: nat, from: seq<nat>, row: seq<nat>)
    requires IsTrie(nodes, words, ix) && 0 < s < |nodes| && IsFailure(words, ix, s, f)
    requires RowTargets(from, words, ix, f) && Overrides(row, from, nodes[s].edges)
    ensures RowTargets(row, words, ix, s)
  {
    forall t: nat | t < |row| ensures row[t] == Target(words, ix, s, t) {
      if t in nodes[s].edges {
        TargetByEdge(words, ix, s, t);
      } else {
        TargetByFailure(words, ix, s, f, t);
      }
    }
  }

  lemma {:induction false} RootTargets(nodes: seq<Node>, words: seq<Word>, ix: map<Word, nat>, from: seq<nat>, row: seq<nat>)
    requires IsTrie(nodes, words, ix) && |nodes| > 0
    requires (forall t :: 0 <= t < |from| ==> from[t] == 0) && Overrides(row, from, nodes[0].edges)
    ensures RowTargets(row, words, ix, 0)
  {
    forall t: nat | t < |row| ensures row[t] == Target(words, ix, 0, t) {
      TargetByEdge(words, ix, 0, t);
    }
  }

  ghost predicate AllRows(dense: seq<nat>, words: seq<Word>, ix: map<Word, nat>, stride: nat) {
    && WordIndex(words, ix)
    && forall s :: 0 <= s < |words| ==> RowHolds(dense, words, ix, stride, s)
  }

  /** The tokens of the ASCII runes, by their byte. */
  ghost predicate AsciiTable(ascii: seq<nat>, tokens: Tokens) {
    |ascii| == 0x80 && forall b: byte :: IsAscii(b) ==> ascii[b] == tokens.Of(Rune(b))
  }

  class SearchPlan {
    const mode: Mode
    const patterns: seq<Bytes>
    var tokens: Tokens
    var ascii: seq<nat>
    var stride: nat
    var nodes: seq<Node>
    var dense: seq<nat>
    var empty: Option<nat>
    var maxUnits: nat
    var maxBytes: nat

    // The word each node stands for, its inverse, and the patterns as token words.
    ghost var words: seq<Word>
    ghost var ix: map<Word, nat>
    ghost var toks: seq<Word>

    ghost function Ps(): seq<Pattern> {
      AllUnits(mode, patterns)
    }

    ghost function Lex(): Lex
      reads `tokens, `toks
    {
      Lexer.Lex(mode, tokens, Ps(), toks)
    }

    /** Some unit of some pattern folds with `u`. */
    ghost predicate Demanded(u: CodeUnit)
      requires mode.Valid()
    {
      exists i, j :: 0 <= i < |patterns| && 0 <= j < |Ps()[i]| && Same(mode, Ps()[i][j], u)
    }

    /** Only units that some pattern asks for have a token. */
    ghost predicate NoSpareToken()
      reads `tokens
    {
      mode.Valid() && forall u :: tokens.Of(u) != 0 ==> Demanded(u)
    }

    /** Only beginnings of patterns, and of the word being spelled, are in the trie. */
    ghost predicate NoSpareWord(w: Word)
      reads `ix, `toks
    {
      OnlyBeginnings(ix, toks, w)
    }

    /** The first `k` patterns are spelled as token words. */
    ghost predicate Lexed(k: nat)
      reads `tokens, `stride, `toks
    {
      && k <= |patterns| && |toks| == k
      && mode.Valid() && TokensAreClasses(mode, tokens, stride) && NoSpareToken()
      && (forall i :: 0 <= i < k ==> Spells(mode, tokens, Ps()[i], toks[i]))
    }

    /** The plan after its first `k` patterns have been spelled into the trie. */
    ghost predicate Building(k: nat)
      reads `tokens, `stride, `nodes, `words, `ix, `toks
    {
      Lexed(k) && TrieOf(nodes, words, ix, toks, stride)
    }

    /** The summary facts: lowest empty pattern, longest pattern, widest spelling. */
    ghost predicate Summary(k: nat)
      reads `empty, `maxUnits, `maxBytes
    {
      && k <= |patterns| && mode.Valid()
      && (empty.None? ==> forall i :: 0 <= i < k ==> Ps()[i] != [])
      && (empty.Some? ==> empty.value < k && Ps()[empty.value] == [] && forall i :: 0 <= i < empty.value ==> Ps()[i] != [])
      && (forall i :: 0 <= i < k ==> |Ps()[i]| <= maxUnits && Encodable(Ps()[i]) && Span(mode, Ps()[i]) <= maxBytes)
    }

    /** The bounds are tight: some pattern is that long, and some spelling that wide. */
    ghost predicate Attained(k: nat)
      reads `maxUnits, `maxBytes
    {
      && k <= |patterns| && mode.Valid()
      && (maxUnits > 0 ==> exists i :: 0 <= i < k && |Ps()[i]| == maxUnits)
      && (maxBytes > 0 ==> exists i :: 0 <= i < k && Encodable(Ps()[i]) && Span(mode, Ps()[i]) == maxBytes)
    }

    ghost predicate Valid()
      reads this
    {
      && Lex().Faithful() && TokensAreClasses(mode, tokens, stride)
      && |nodes| == |words| && AllLinked(nodes, words, ix, toks) && Spelled(toks, ix)
      && Summary(|patterns|)
      && (dense == [] || AllRows(dense, words, ix, stride))
      && (!mode.exact ==> AsciiTable(ascii, tokens))
    }

    // ----- tokens

    /** Give every member of the orbit of `r` the token. */
    method MarkOrbit(r: int, token: nat)
      requires mode.Valid()
      modifies `tokens
      ensures forall b :: tokens.Of(Raw(b)) == old(tokens).Of(Raw(b))
      ensures forall x :: tokens.Of(Rune(x)) == if Fold.SameOrbit(mode.fold, r, x) then token else old(tokens).Of(Rune(x))
    {
      ghost var t, before := mode.fold, tokens;
      ghost var seen, k := {}, 0;
      var member := r;
      while true
        invariant k < Fold.Period(t, r) && member == Fold.Iter(t, r, k)
        invariant forall b :: tokens.Of(Raw(b)) == before.Of(Raw(b))
        invariant forall x :: tokens.Of(Rune(x)) == if x in seen then token else before.Of(Rune(x))
        invariant forall x :: x in seen ==> Fold.SameOrbit(t, r, x)
        invariant forall i: nat :: i < k ==> Fold.Iter(t, r, i) in seen
        decreases Fold.Period(t, r) - k
      {
        tokens := tokens.(runes := tokens.runes[member := token]);
        seen := seen + {member};
        var next := Fold.Next(mode.fold, member);
        assert next == Fold.Iter(t, r, k + 1);
        k := k + 1;
        if next == r { break; }
        member := next;
      }
      OrbitSeen(r, seen, k);
    }

    /** A token for the orbit of `r`, shared by every rune that folds with it. */
    method RuneToken(r: int) returns (token: nat)
      requires mode.Valid() && TokensAreClasses(mode, tokens, stride)
      modifies `tokens, `stride
      ensures TokensAreClasses(mode, tokens, stride) && old(stride) <= stride
      ensures token == tokens.Of(Rune(r)) != 0
      ensures forall u :: old(tokens).Of(u) != 0 ==> tokens.Of(u) == old(tokens).Of(u)
      ensures forall u :: tokens.Of(u) == old(tokens).Of(u) || Same(mode, Rune(r), u)
    {
      if r in tokens.runes && tokens.runes[r] != 0 {
        return tokens.runes[r];
      }
      ghost var before := tokens;
      token := stride;
      MarkOrbit(r, token);
      forall v ensures tokens.Of(v) == if Same(mode, Rune(r), v) then token else before.Of(v) {
        match v
        case Rune(x) =>
        case Raw(b) =>
      }
      FreshClass(mode, before, stride, Rune(r), tokens);
      stride := stride + 1;
    }

    lemma {:induction false} OrbitSeen(r: int, seen: set<int>, k: nat)
      requires mode.Valid() && k == Fold.Period(mode.fold, r)
      requires forall i: nat :: i < k ==> Fold.Iter(mode.fold, r, i) in seen
      ensures forall x :: Fold.SameOrbit(mode.fold, r, x) ==> x in seen
    {
      forall x | Fold.SameOrbit(mode.fold, r, x) ensures x in seen {
        var n: nat :| Fold.Iter(mode.fold, r, n) == x;
        var i := Fold.WithinPeriod(mode.fold, r, n);
      }
    }

    /** A token for the unit at `at` of a pattern, and its source width. */
    method PatternToken(s: Bytes, at: nat) returns (token: nat, size: nat)
      requires at < |s| && mode.Valid() && TokensAreClasses(mode, tokens, stride)
      modifies `tokens, `stride
      ensures TokensAreClasses(mode, tokens, stride) && old(stride) <= stride
      ensures size == SizeAt(mode, s, at)
      ensures token == tokens.Of(UnitAt(mode, s, at)) != 0
      ensures forall u :: old(tokens).Of(u) != 0 ==> tokens.Of(u) == old(tokens).Of(u)
      ensures forall u :: tokens.Of(u) == old(tokens).Of(u) || Same(mode, UnitAt(mode, s, at), u)
    {
      if mode.exact || FormLen(s, at) == 0 {
        token := tokens.Of(Raw(s[at]));
        if token == 0 {
          ghost var before := tokens;
          token := stride;
          tokens := tokens.(bytes := tokens.bytes[s[at] := token]);
          assert Extends(mode, before, Raw(s[at]), token, tokens);
          FreshClass(mode, before, stride, Raw(s[at]), tokens);
          stride := stride + 1;
        }
        return token, 1;
      }
      token := RuneToken(FormRune(s, at));
      size := FormLen(s, at);
    }

    // ----- the trie

    /** Follow the edge for `token`, creating it first if the trie has none. */
    method Child(state: nat, token: nat) returns (next: nat)
      requires TrieOf(nodes, words, ix, toks, stride)
      requires state < |nodes| && 0 < token < stride
      modifies `nodes, `words, `ix
      ensures TrieOf(nodes, words, ix, toks, stride)
      ensures next < |words| && words[next] == old(words)[state] + [token]
      ensures forall v :: v in ix ==> v in old(ix) || v == words[next]
    {
      if token in nodes[state].edges {
        assert words[state] + [token] in ix;
        return nodes[state].edges[token];
      }
      next := |nodes|;
      GrowTrieOf(nodes, words, ix, toks, stride, state, token);
      nodes := Grow(nodes, state, token);
      ghost var w := words[state] + [token];
      words, ix := words + [w], ix[w := next];
    }

    lemma {:induction false} SpellsKept(tk: Tokens, p: Pattern, w: Word)
      requires mode.Valid() && Spells(mode, tk, p, w)
      requires TokensAreClasses(mode, tokens, stride)
      requires forall u :: tk.Of(u) != 0 ==> tokens.Of(u) == tk.Of(u)
      ensures Spells(mode, tokens, p, w)
    {
      forall j, u | 0 <= j < |w| ensures tokens.Of(u) == w[j] <==> Same(mode, u, p[j]) {
        SameReflexive(mode, p[j]);
        assert tk.Of(p[j]) == w[j];
        if Same(mode, u, p[j]) {
          SameSymmetric(mode, u, p[j]);
        }
        if tokens.Of(u) == tokens.Of(p[j]) {
          SameSymmetric(mode, p[j], u);
        }
      }
    }

    lemma {:induction false} SpellsMore(p: Pattern, w: Word, u: CodeUnit)
      requires mode.Valid() && TokensAreClasses(mode, tokens, stride)
      requires Spells(mode, tokens, p, w) && tokens.Of(u) != 0
      ensures Spells(mode, tokens, p + [u], w + [tokens.Of(u)])
    {
      forall v ensures tokens.Of(v) == tokens.Of(u) <==> Same(mode, v, u) {
        if Same(mode, v, u) {
          SameSymmetric(mode, v, u);
        }
        if Same(mode, u, v) {
          SameSymmetric(mode, u, v);
        }
      }
    }

    /** The pattern `id` has been spelled up to its unit `j`, at `state`. */
    ghost predicate Spelling(id: nat, at: nat, j: nat, w: Word, state: nat)
      reads `tokens, `stride, `nodes, `words, `ix, `toks
    {
      && Building(id) && id < |patterns| && at <= |patterns[id]| && j == |w| <= |Ps()[id]|
      && Ps()[id][j..] == Units(mode, patterns[id], at)
      && Spells(mode, tokens, Ps()[id][..j], w)
      && state < |words| && words[state] == w && NoSpareWord(w)
    }

    /** Allot the token of the next unit; nothing spelled so far changes. */
    method UnitToken(id: nat, at: nat, state: nat, ghost j: nat, ghost w: Word) returns (token: nat, size: nat)
      requires Spelling(id, at, j, w, state) && at < |patterns[id]|
      modifies `tokens, `stride
      ensures Spelling(id, at, j, w, state)
      ensures size == SizeAt(mode, patterns[id], at)
      ensures token == tokens.Of(UnitAt(mode, patterns[id], at)) && 0 < token < stride
    {
      ghost var before, stride' := tokens, stride;
      token, size := PatternToken(patterns[id], at);
      forall i | 0 <= i < id ensures Spells(mode, tokens, Ps()[i], toks[i]) {
        SpellsKept(before, Ps()[i], toks[i]);
      }
      SpellsKept(before, Ps()[id][..j], w);
      AlphabetGrows(words, stride', stride);
      assert UnitAt(mode, patterns[id], at) == Ps()[id][j..][0] == Ps()[id][j];
      forall u | tokens.Of(u) != 0 ensures Demanded(u) {
        assert tokens.Of(u) == before.Of(u) || Same(mode, Ps()[id][j], u);
      }
    }

    /** Spell one unit of pattern `id`, and bound the width of its spellings. */
    method AddUnit(id: nat, at: nat, state: nat, ghost j: nat, ghost w: Word)
      returns (next: nat, size: nat, unitBytes: nat, ghost w': Word)
      requires Spelling(id, at, j, w, state) && at < |patterns[id]|
      modifies `tokens, `stride, `nodes, `words, `ix
      ensures size == SizeAt(mode, patterns[id], at)
      ensures Spelling(id, at + size, j + 1, w', next) && j < |Ps()[id]|
      ensures unitBytes == UnitSpan(mode, Ps()[id][j])
    {
      hide TokensAreClasses, Spells, WordIndex, Terminals, InAlphabet, Spelled, Same, OnlyBeginnings, NoSpareToken, Demanded, FormLen, FormRune, Encode, Fold.SameOrbit;
      ghost var us, u := Ps()[id], UnitAt(mode, patterns[id], at);
      var token;
      token, size := UnitToken(id, at, state, j, w);
      SpellsMore(us[..j], w, u);
      assert us[j..][0] == us[j] && us[..j + 1] == us[..j] + [u];
      assert us[j + 1..] == us[j..][1..];
      ghost var before := ix;
      next := Child(state, token);
      w' := w + [token];
      WordGrows(before, ix, toks, w, token);
      unitBytes := size;
      if !mode.exact && FormLen(patterns[id], at) != 0 {
        unitBytes := Fold.MaxFoldRuneWidth(mode.fold, FormRune(patterns[id], at));
      }
    }

    method AddEmpty(id: nat)
      requires id < |patterns| && Building(id) && Summary(id) && patterns[id] == [] && NoSpareWord([])
      modifies `empty, `toks
      ensures Building(id + 1) && Summary(id + 1) && NoSpareWord([])
    {
      hide TokensAreClasses, IsTrie, Terminals, InAlphabet, Spelled, OnlyBeginnings;
      if empty.None? {
        empty := Some(id);
      }
      SkipEmpty(nodes, words, ix, toks);
      WordDone(ix, toks, []);
      toks := toks + [[]];
    }

    /** Record the terminal of a fully spelled pattern. */
    method EndSpelling(id: nat, state: nat, units: nat, ghost w: Word)
      requires id < |patterns| && Spelling(id, |patterns[id]|, |Ps()[id]|, w, state) && units == |w| > 0
      modifies `nodes, `toks
      ensures Building(id + 1) && NoSpareWord([])
    {
      hide TokensAreClasses, Spells, WordIndex, Terminals, InAlphabet, Spelled, Same, OnlyBeginnings;
      assert Ps()[id][..|Ps()[id]|] == Ps()[id];
      EndPattern(nodes, words, ix, toks, state);
      nodes := nodes[state := nodes[state].(output := Prefer(Output(id, units), nodes[state].output))];
      WordDone(ix, toks, w);
      toks := toks + [w];
    }

    /** Keep the longest pattern and the widest spelling. */
    method Summarise(id: nat, units: nat, bytes: nat)
      requires id < |patterns| && Summary(id) && Attained(id) && Ps()[id] != [] && Encodable(Ps()[id])
      requires units == |Ps()[id]| && bytes == Span(mode, Ps()[id])
      modifies `maxUnits, `maxBytes
      ensures Summary(id + 1) && Attained(id + 1)
    {
      maxUnits := if units > maxUnits then units else maxUnits;
      maxBytes := if bytes > maxBytes then bytes else maxBytes;
    }

    lemma {:induction false} StartSpelling(id: nat)
      requires id < |patterns| && Building(id) && NoSpareWord([])
      ensures Spelling(id, 0, 0, [], 0) && mode.Valid()
    {
      hide TokensAreClasses, Spells, Terminals, InAlphabet, Spelled, Same;
      SpellsNothing(mode, tokens);
      assert Ps()[id][..0] == [];
      RootWord(words, ix);
    }

    /** Spell every unit of pattern `id`; the trie node reached is its terminal node. */
    method SpellUnits(id: nat) returns (state: nat, units: nat, bytes: nat, ghost w: Word)
      requires id < |patterns| && Building(id) && NoSpareWord([])
      modifies `tokens, `stride, `nodes, `words, `ix
      ensures Spelling(id, |patterns[id]|, units, w, state) && units == |w| == |Ps()[id]|
      ensures Encodable(Ps()[id]) && bytes == Span(mode, Ps()[id])
    {
      hide Building, Spelling, Units, UnitSpan, Span, NoSpareWord;
      ghost var us := Ps()[id];
      UnitsEncodable(mode, patterns[id], 0);
      StartSpelling(id);
      SpanEmpty(mode);
      assert us[..0] == [];
      var at: nat := 0;
      state, units, bytes, w := 0, 0, 0, [];
      while at < |patterns[id]|
        invariant at <= |patterns[id]| && units <= |us| && Spelling(id, at, units, w, state)
        invariant bytes == Span(mode, us[..units])
        decreases |patterns[id]| - at
      {
        UnitsLeft(id, at, units, w, state);
        SpanStep(mode, us, units);
        var next, size, unitBytes;
        next, size, unitBytes, w := AddUnit(id, at, state, units, w);
        state, bytes, at, units := next, bytes + unitBytes, at + size, units + 1;
      }
      UnitsLeft(id, at, units, w, state);
      assert us[..units] == us;
    }

    lemma {:induction false} UnitsLeft(id: nat, at: nat, j: nat, w: Word, state: nat)
      requires Spelling(id, at, j, w, state)
      ensures if at < |patterns[id]| then j < |Ps()[id]| else j == |w| == |Ps()[id]|
    {
      hide Building, Spells;
    }

    lemma {:induction false} SomeUnit(id: nat)
      requires id < |patterns| && patterns[id] != []
      ensures Ps()[id] != []
    {
    }

    lemma {:induction false} StillAttained(id: nat)
      requires id < |patterns| && Attained(id)
      ensures Attained(id + 1)
    {
    }

    /** Spell pattern `id` into the trie. */
    method AddPattern(id: nat)
      requires id < |patterns| && Building(id) && Summary(id) && Attained(id) && NoSpareWord([])
      modifies `tokens, `stride, `nodes, `words, `ix, `toks, `empty, `maxUnits, `maxBytes
      ensures Building(id + 1) && Summary(id + 1) && Attained(id + 1) && NoSpareWord([])
    {
      hide Building, Summary, Spelling, Attained, NoSpareWord;
      StillAttained(id);
      if patterns[id] == [] {
        AddEmpty(id);
      } else {
        var state, units, bytes;
        ghost var w;
        state, units, bytes, w := SpellUnits(id);
        EndSpelling(id, state, units, w);
        SomeUnit(id);
        Summarise(id, units, bytes);
      }
    }

    // ----- failure links and outputs

    /** The failure link of the child of `state` over `token`: the walk down the
        failure links of `state`, all of whose nodes are linked already. */
    method FailureOf(state: nat, token: nat, child: nat, ghost queue: seq<nat>) returns (failure: nat)
      requires LinkedUpTo(nodes, words, ix, toks, queue) && 0 < state < |nodes| && state in queue
      requires ShallowIn(words, queue, state)
      requires child < |nodes| && words[child] == words[state] + [token]
      ensures failure < |nodes| && IsFailure(words, ix, child, failure)
      ensures failure == 0 || failure in queue
    {
      ghost var start := nodes[state].failure;
      RootWord(words, ix);
      assert NodeLinked(nodes, words, ix, toks, state);
      failure := nodes[state].failure;
      while failure != 0
        invariant failure < |nodes| && |words[failure]| < |words[state]|
        invariant Target(words, ix, failure, token) == Target(words, ix, start, token)
        decreases |words[failure]|
      {
        TargetByEdge(words, ix, failure, token);
        if token in nodes[failure].edges {
          failure := nodes[failure].edges[token];
          ChildFailure(words, ix, state, start, token, child, failure);
          return;
        }
        assert NodeLinked(nodes, words, ix, toks, failure);
        TargetByFailure(words, ix, failure, nodes[failure].failure, token);
        failure := nodes[failure].failure;
      }
      TargetByEdge(words, ix, 0, token);
      if token in nodes[0].edges && nodes[0].edges[token] != child {
        failure := nodes[0].edges[token];
      }
      ChildFailure(words, ix, state, start, token, child, failure);
    }

    /** Queue the children of the root. */
    method RootQueue() returns (queue: seq<nat>)
      requires IsTrie(nodes, words, ix)
      ensures RootExpanded(words, ix, queue, {})
    {
      RootWord(words, ix);
      RootPending(nodes, words, ix);
      queue := [];
      var pending := nodes[0].edges.Keys;
      while pending != {}
        invariant pending <= nodes[0].edges.Keys
        invariant RootExpanded(words, ix, queue, pending)
      {
        var token :| token in pending;
        var child := nodes[0].edges[token];
        EdgeChild(nodes, words, ix, 0, token);
        assert words[child] == [token];
        EnqueueRoot(words, ix, queue, pending, child, token);
        pending := pending - {token};
        queue := queue + [child];
      }
    }

    /** Queue and link the children of the node at the head of the queue. */
    method Expand(queue0: seq<nat>, head: nat) returns (queue: seq<nat>)
      requires LinkedUpTo(nodes, words, ix, toks, queue0) && head < |queue0|
      requires InOrder(words, queue0, head) && Expanded(words, ix, queue0, head, 0, {})
      modifies `nodes
      ensures LinkedUpTo(nodes, words, ix, toks, queue) && head < |queue|
      ensures InOrder(words, queue, head + 1) && Expanded(words, ix, queue, head + 1, 0, {})
    {
      hide WordIndex, Expanded, IsFailure;
      queue := queue0;
      var state := queue[head];
      var pending := nodes[state].edges.Keys;
      StartHead(nodes, words, ix, queue, head);
      while pending != {}
        invariant head < |queue| && queue[head] == state && state < |nodes|
        invariant pending <= nodes[state].edges.Keys
        invariant LinkedUpTo(nodes, words, ix, toks, queue) && InOrder(words, queue, head)
        invariant Expanded(words, ix, queue, head, state, pending)
      {
        var token :| token in pending;
        var child := nodes[state].edges[token];
        EdgeChild(nodes, words, ix, state, token);
        AllShallow(words, ix, queue, head, pending);
        Enqueue(words, ix, queue, head, pending, child, token);
        var failure := FailureOf(state, token, child, queue);
        LinkOne(nodes, words, ix, toks, queue, child, failure);
        nodes := Link(nodes, child, failure);
        pending := pending - {token};
        queue := queue + [child];
      }
      FinishHead(words, ix, queue, head);
    }

    /** Compute every failure link and output, breadth first. */
    method LinkNodes() returns (queue: seq<nat>)
      requires TrieOf(nodes, words, ix, toks, stride)
      modifies `nodes
      ensures AllLinked(nodes, words, ix, toks)
      ensures InOrder(words, queue, |queue|) && forall s :: 0 < s < |words| ==> s in queue
    {
      hide WordIndex, Expanded, RootExpanded, IsFailure, IsOutput, IsTerminal, InAlphabet;
      queue := RootQueue();
      FinishRoot(words, ix, queue);
      RootLinked(nodes, words, ix, toks, queue);
      var head := 0;
      while head < |queue|
        invariant head <= |queue|
        invariant LinkedUpTo(nodes, words, ix, toks, queue) && InOrder(words, queue, head)
        invariant Expanded(words, ix, queue, head, 0, {})
        decreases |words| - head
      {
        queue := Expand(queue, head);
        DistinctBound(queue, |words|);
        head := head + 1;
      }
      AllQueued(words, ix, queue);
      LinkedAll(nodes, words, ix, toks, queue);
    }

    // ----- the dense table and transitions

    /** A row with the edges of `state` written over it. */
    method OverrideRow(from: seq<nat>, state: nat) returns (row: seq<nat>)
      requires state < |nodes| && |from| == stride && forall t :: t in nodes[state].edges ==> t < stride
      ensures Overrides(row, from, nodes[state].edges)
    {
      row := from;
      var pending := nodes[state].edges.Keys;
      while pending != {}
        invariant pending <= nodes[state].edges.Keys && |row| == stride
        invariant forall t: nat :: t < stride ==>
                    row[t] == if t in nodes[state].edges && t !in pending then nodes[state].edges[t] else from[t]
      {
        var token :| token in pending;
        row := row[token := nodes[state].edges[token]];
        pending := pending - {token};
      }
    }

    lemma {:induction false} EdgeInAlphabet(s: nat, t: nat)
      requires IsTrie(nodes, words, ix) && InAlphabet(words, stride) && s < |nodes| && t in nodes[s].edges
      ensures t < stride
    {
      EdgeChild(nodes, words, ix, s, t);
      var w := words[nodes[s].edges[t]];
      assert w in words && w[|w| - 1] == t;
    }

    /** Copy the failure node's row and write the state's own edges over it. */
    method WriteRow(state: nat, failure: nat)
      requires IsTrie(nodes, words, ix) && (forall s, t :: 0 <= s < |nodes| && t in nodes[s].edges ==> t < stride)
      requires 0 < state < |words| && failure < |words| && IsFailure(words, ix, state, failure)
      requires |dense| == Base(|words|, stride) && RowHolds(dense, words, ix, stride, failure)
      modifies `dense
      ensures |dense| == old(|dense|) && RowHolds(dense, words, ix, stride, state)
      ensures forall r :: 0 <= r < |words| && RowHolds(old(dense), words, ix, stride, r) ==> RowHolds(dense, words, ix, stride, r)
    {
      hide WordIndex, IsFailure, Target, RowTargets, Base;
      var from := dense[Base(failure, stride)..Base(failure, stride) + stride];
      var row := OverrideRow(from, state);
      OverrideTargets(nodes, words, ix, state, failure, from, row);
      SpliceRow(dense, words, ix, stride, state, row);
      dense := Splice(dense, Base(state, stride), row);
    }

    method RootRow()
      requires IsTrie(nodes, words, ix) && |nodes| > 0 && (forall s, t :: 0 <= s < |nodes| && t in nodes[s].edges ==> t < stride)
      modifies `dense
      ensures |dense| == Base(|words|, stride) && RowHolds(dense, words, ix, stride, 0)
    {
      hide WordIndex, Target, RowTargets, Base;
      dense := seq(Base(|nodes|, stride), _ => 0);
      var zeros := seq(stride, _ => 0);
      var row := OverrideRow(zeros, 0);
      RootTargets(nodes, words, ix, zeros, row);
      SpliceRow(dense, words, ix, stride, 0, row);
      dense := Splice(dense, Base(0, stride), row);
    }

    /** Materialise every transition, unless the table would be too large. */
    method FillDense(queue: seq<nat>)
      requires AllLinked(nodes, words, ix, toks) && InAlphabet(words, stride) && dense == []
      requires InOrder(words, queue, |queue|) && forall s :: 0 < s < |words| ==> s in queue
      modifies `dense
      ensures dense == [] || AllRows(dense, words, ix, stride)
    {
      if stride <= 1 || |nodes| > MAX_DENSE_TRANSITIONS / stride {
        return;
      }
      forall s, t | 0 <= s < |nodes| && t in nodes[s].edges ensures t < stride {
        EdgeInAlphabet(s, t);
      }
      assert forall k :: 0 <= k < |queue| ==> 0 < queue[k] < |words|;
      RootWord(words, ix);
      hide WordIndex, IsOutput, IsFailure, InAlphabet, RowHolds, InOrder, Base;
      RootRow();
      for i := 0 to |queue|
        invariant |dense| == Base(|words|, stride)
        invariant RowHolds(dense, words, ix, stride, 0)
        invariant forall k :: 0 <= k < i ==> RowHolds(dense, words, ix, stride, queue[k])
      {
        FailureEarlier(queue, i);
        WriteRow(queue[i], nodes[queue[i]].failure);
      }
      forall s | 0 <= s < |words| ensures RowHolds(dense, words, ix, stride, s) {
        if s != 0 {
          assert s in queue;
          var k :| 0 <= k < |queue| && queue[k] == s;
        }
      }
    }

    /** A failure node is shallower, so it is the root or stands earlier in the queue. */
    lemma {:induction false} FailureEarlier(queue: seq<nat>, i: nat)
      requires AllLinked(nodes, words, ix, toks) && i < |queue|
      requires InOrder(words, queue, |queue|) && forall s :: 0 < s < |words| ==> s in queue
      ensures IsFailure(words, ix, queue[i], nodes[queue[i]].failure)
      ensures var f := nodes[queue[i]].failure;
              f < |words| && (f == 0 || exists k :: 0 <= k < i && queue[k] == f)
    {
      RootWord(words, ix);
      var s := queue[i];
      assert NodeLinked(nodes, words, ix, toks, s);
      var f := nodes[s].failure;
      if f != 0 {
        assert f in queue;
        var k :| 0 <= k < |queue| && queue[k] == f;
        assert Depth(words, f) < Depth(words, s);
        assert k < i;
      }
    }

    /** One transition of the automaton, by table or by failure walk. */
    method Step(state: nat, token: nat) returns (next: nat)
      requires Valid() && state < |words| && token < stride
      ensures next == Target(words, ix, state, token)
    {
      if token == 0 {
        LongestReset(words, ix, words[state]);
        return 0;
      }
      if dense != [] {
        var base := Base(state, stride);
        assert RowHolds(dense, words, ix, stride, state);
        assert dense[base + token] == dense[base..base + stride][token];
        return dense[base + token];
      }
      RootWord(words, ix);
      next := state;
      while true
        invariant next < |words| && Target(words, ix, next, token) == Target(words, ix, state, token)
        decreases |words[next]|
      {
        TargetByEdge(words, ix, next, token);
        if token in nodes[next].edges {
          return nodes[next].edges[token];
        }
        if next == 0 {
          return 0;
        }
        assert NodeLinked(nodes, words, ix, toks, next);
        TargetByFailure(words, ix, next, nodes[next].failure, token);
        next := nodes[next].failure;
      }
    }

    /** All patterns are spelled and linked: the plan is ready to search. */
    lemma {:induction false} Ready()
      requires Lexed(|patterns|) && Summary(|patterns|) && Spelled(toks, ix)
      requires AllLinked(nodes, words, ix, toks) && (dense == [] || AllRows(dense, words, ix, stride))
      requires !mode.exact ==> AsciiTable(ascii, tokens)
      ensures Valid()
    {
    }

    static lemma {:induction false} SomeMember(s: set<int>)
      requires s != {}
      ensures exists x :: x in s
    {
      if forall x :: x !in s {
        assert false;
      }
    }

    /** Collect the tokens of the ASCII runes into a table. */
    method FillAscii()
      modifies `ascii
      ensures AsciiTable(ascii, tokens)
    {
      ascii := seq(0x80, _ => 0);
      var pending: set<int> := tokens.runes.Keys;
      while pending != {}
        invariant pending <= tokens.runes.Keys && |ascii| == 0x80
        invariant forall b: byte :: IsAscii(b) ==> ascii[b] == if b in pending then 0 else tokens.Of(Rune(b))
        decreases |pending|
      {
        SomeMember(pending);
        var r :| r in pending;
        if 0 <= r < 0x80 {
          ascii := ascii[r := tokens.runes[r]];
        }
        pending := pending - {r};
      }
    }

    method SpellAll()
      requires Building(0) && Summary(0) && Attained(0) && NoSpareWord([])
      modifies `tokens, `stride, `nodes, `words, `ix, `toks, `empty, `maxUnits, `maxBytes
      ensures Building(|patterns|) && Summary(|patterns|) && Attained(|patterns|) && NoSpareWord([])
    {
      hide Building, Summary, Attained, NoSpareWord;
      for id := 0 to |patterns|
        invariant Building(id) && Summary(id) && Attained(id) && NoSpareWord([])
      {
        AddPattern(id);
      }
    }

    /** Link the nodes of the finished trie and materialise its transitions. */
    method Finish()
      requires Building(|patterns|) && Summary(|patterns|) && dense == []
      modifies `nodes, `dense, `ascii
      ensures Valid()
    {
      hide Summary, Lexed, IsTrie, Terminals, AllRows, AllLinked, InAlphabet, Spelled, InOrder, Valid, AsciiTable;
      if !mode.exact {
        FillAscii();
      }
      var queue := LinkNodes();
      FillDense(queue);
      Ready();
    }

    lemma {:induction false} Blank()
      requires mode.Valid() && tokens == Tokens(map[], map[]) && stride == 1
      requires nodes == [Node(map[], 0, NoOutput)] && words == [[]] && ix == map[[] := 0] && toks == []
      requires empty == None && maxUnits == maxBytes == 0
      ensures Building(0) && Summary(0) && Attained(0) && NoSpareWord([])
    {
    }

    lemma {:induction false} Tokened()
      requires Building(|patterns|)
      ensures NoSpareToken()
    {
    }

    /** Compile a pattern set: Unicode simple folding, or byte identity when `exact`. */
    constructor (patterns: seq<Bytes>, exact: bool, fold: Fold.Table)
      requires Fold.Valid(fold)
      ensures Valid() && this.patterns == patterns && mode == Mode(exact, fold)
      ensures Attained(|patterns|) && NoSpareToken() && NoSpareWord([])
    {
      hide Building, Summary, Valid, Attained, Demanded, NoSpareToken, NoSpareWord;
      this.patterns := patterns;
      mode := Mode(exact, fold);
      tokens, ascii, stride := Tokens(map[], map[]), [], 1;
      nodes, dense := [Node(map[], 0, NoOutput)], [];
      empty, maxUnits, maxBytes := None, 0, 0;
      words, ix, toks := [[]], map[[] := 0], [];
      new;
      Blank();
      SpellAll();
      Tokened();
      Finish();
    }
  }

  lemma {:induction false} ModeOf(p: SearchPlan)
    requires p.Valid()
    ensures p.mode.Valid()
  {
  }
}
