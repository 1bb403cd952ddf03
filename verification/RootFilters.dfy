/** Byte-prefix filters over the roots of a plan. A filter only nominates positions;
    what matters is that it never passes over one at which a pattern starts. */
module RootFilters {
  import opened Utf8
  import opened Spec
  import opened Automaton
  import opened Lexer
  import opened Links
  import opened Plan
  import opened Search
  import opened AsciiSkip
  import opened Decoded
  import opened Rooms
  import Fold

  const MAX_ONES := 16
  const MAX_PAIRS := 16

  /** A nonempty pattern `i` is spelled at the byte position `q`. */
  ghost predicate Starts(p: SearchPlan, h: Bytes, q: nat, i: nat)
    reads p
  {
    && p.mode.Valid() && q < |h| && i < |p.Ps()| && p.Ps()[i] != []
    && MatchEnd(p.mode, h, q, p.Ps()[i]).Some?
  }

  /** A nonempty pattern that matches starts there. */
  lemma {:induction false} NonemptyStarts(p: SearchPlan, h: Bytes, q: nat, i: nat)
    requires p.mode.Valid() && q <= |h| && i < |p.Ps()| && p.Ps()[i] != [] && MatchesAt(p.mode, h, q, p.Ps(), i)
    ensures Starts(p, h, q, i)
  {
  }

  // ----- the spellings of a token

  ghost predicate RuneForm(tk: Tokens, token: nat, f: Bytes) {
    exists r :: r in tk.runes && tk.runes[r] == token && IsScalar(r) && f == Encode(r)
  }

  /** `f` is the encoding of a rune, or the opaque byte, that has the token. */
  ghost predicate IsForm(tk: Tokens, token: nat, f: Bytes) {
    RuneForm(tk, token, f) || (|f| == 1 && f[0] in tk.bytes && tk.bytes[f[0]] == token)
  }

  /** Every spelling of a token. */
  method Forms(tk: Tokens, token: nat) returns (fs: seq<Bytes>)
    ensures forall f :: IsForm(tk, token, f) <==> f in fs
    ensures forall f :: f in fs ==> |f| > 0
  {
    fs := [];
    var items := tk.runes.Items;
    while items != {}
      invariant items <= tk.runes.Items && forall f :: f in fs ==> |f| > 0 && IsForm(tk, token, f)
      invariant forall r :: r in tk.runes && (r, tk.runes[r]) !in items && tk.runes[r] == token && IsScalar(r) ==> Encode(r) in fs
    {
      var item :| item in items;
      items := items - {item};
      if item.1 == token && IsScalar(item.0) {
        fs := fs + [Encode(item.0)];
      }
    }
    var bytes := tk.bytes.Keys;
    while bytes != {}
      invariant forall f :: f in fs ==> |f| > 0 && IsForm(tk, token, f)
      invariant forall r :: r in tk.runes && tk.runes[r] == token && IsScalar(r) ==> Encode(r) in fs
      invariant forall b :: b in tk.bytes && b !in bytes && tk.bytes[b] == token ==> [b] in fs
    {
      var b :| b in bytes;
      bytes := bytes - {b};
      if b in tk.bytes && tk.bytes[b] == token {
        fs := fs + [[b]];
      }
    }
    forall f | IsForm(tk, token, f) ensures f in fs {
      if !RuneForm(tk, token, f) {
        assert f == [f[0]];
      }
    }
  }

  /** The bytes of a unit that has a token spell one of its forms. */
  lemma {:induction false} UnitForm(p: SearchPlan, h: Bytes, q: nat)
    requires q < |h| && TokenAt(p, h, q) != 0
    ensures q + SizeAt(p.mode, h, q) <= |h|
    ensures IsForm(p.tokens, TokenAt(p, h, q), h[q..q + SizeAt(p.mode, h, q)])
  {
    if p.mode.exact || FormLen(h, q) == 0 {
      assert h[q..q + 1] == [h[q]];
    } else {
      EncodeDecode(h, q);
    }
  }

  // ----- the root filter

  datatype RootPair = RootPair(first: byte, second: byte, foldFirst: bool, foldSecond: bool)

  /** One-byte roots and two-byte prefixes; empty when the plan does not fit. */
  datatype RootFilter = RootFilter(ones: seq<byte>, pairs: seq<RootPair>) {
    predicate Usable() {
      ones != [] || pairs != []
    }
  }

  predicate Folded(fold: bool, value: byte, b: byte) {
    (if fold then Lower(b) else b) == value
  }

  /** Only letters fold, and they are kept with their case bit set. */
  predicate LettersFold(f: RootFilter) {
    forall k :: 0 <= k < |f.pairs| ==> FoldsLetters(f.pairs[k])
  }

  predicate FoldsLetters(pair: RootPair) {
    && (pair.foldFirst ==> IsAsciiLetter(pair.first) && Lower(pair.first) == pair.first)
    && (pair.foldSecond ==> IsAsciiLetter(pair.second) && Lower(pair.second) == pair.second)
  }

  predicate PairMatches(pair: RootPair, a: byte, b: byte) {
    Folded(pair.foldFirst, pair.first, a) && Folded(pair.foldSecond, pair.second, b)
  }

  predicate Admits(f: RootFilter, h: Bytes, q: nat) {
    q < |h| && (h[q] in f.ones || (q + 1 < |h| && exists k :: 0 <= k < |f.pairs| && PairMatches(f.pairs[k], h[q], h[q + 1])))
  }

  /** The filter admits every position at which a pattern starts, unless its first
      token is left to another filter. */
  ghost predicate Complete(p: SearchPlan, f: RootFilter, excluded: set<nat>)
    reads p
  {
    forall h: Bytes, q: nat, i: nat :: Starts(p, h, q, i) && TokenAt(p, h, q) !in excluded ==> Admits(f, h, q)
  }

  /** The filter admits every position at which a pattern starts with `token`. */
  ghost predicate Covers(p: SearchPlan, f: RootFilter, token: nat)
    reads p
  {
    forall h: Bytes, q: nat, i: nat :: Starts(p, h, q, i) && TokenAt(p, h, q) == token ==> Admits(f, h, q)
  }

  ghost predicate Extends(f: RootFilter, f': RootFilter) {
    (forall b :: b in f.ones ==> b in f'.ones) && (forall c :: c in f.pairs ==> c in f'.pairs)
  }

  lemma {:induction false} ExtendsAdmits(f: RootFilter, f': RootFilter, h: Bytes, q: nat)
    requires Extends(f, f') && Admits(f, h, q)
    ensures Admits(f', h, q)
  {
    if h[q] !in f.ones {
      var k :| 0 <= k < |f.pairs| && PairMatches(f.pairs[k], h[q], h[q + 1]);
      assert f.pairs[k] in f'.pairs;
    }
  }

  lemma {:induction false} ExtendsCovers(p: SearchPlan, f: RootFilter, f': RootFilter, token: nat)
    requires Extends(f, f') && Covers(p, f, token)
    ensures Covers(p, f', token)
  {
    forall h: Bytes, q: nat, i: nat | Starts(p, h, q, i) && TokenAt(p, h, q) == token ensures Admits(f', h, q) {
      ExtendsAdmits(f, f', h, q);
    }
  }

  /** Add an entry, unless it is there already or the set is full. */
  function AddOne(f: RootFilter, b: byte): (r: Option<RootFilter>)
    ensures r.Some? ==> Extends(f, r.value) && b in r.value.ones && r.value.pairs == f.pairs
    ensures r.Some? ==> forall c :: c in r.value.ones ==> c in f.ones || c == b
  {
    if b in f.ones then Some(f)
    else if |f.ones| == MAX_ONES then None
    else Some(f.(ones := f.ones + [b]))
  }

  function AddPair(f: RootFilter, pair: RootPair): (r: Option<RootFilter>)
    ensures r.Some? ==> Extends(f, r.value) && pair in r.value.pairs
    ensures r.Some? && LettersFold(f) && FoldsLetters(pair) ==> LettersFold(r.value)
    ensures r.Some? && |f.pairs| <= MAX_PAIRS ==> |r.value.pairs| <= MAX_PAIRS
    ensures r.Some? ==> r.value.ones == f.ones
  {
    if pair in f.pairs then Some(f)
    else if |f.pairs| == MAX_PAIRS then None
    else Some(f.(pairs := f.pairs + [pair]))
  }

  /** An ASCII letter is compared with its case bit set; other forms as they are. */
  function Compact(f: Bytes): (c: (Bytes, bool))
    requires |f| > 0
    ensures |c.0| == |f| && Folded(c.1, c.0[0], f[0])
    ensures |f| > 1 ==> c == (f, false)
  {
    if |f| == 1 && IsAsciiLetter(f[0]) then ([Lower(f[0])], true) else (f, false)
  }

  /** A filter entry for the first two bytes of a spelling. */
  function AddPrefix(f: RootFilter, form: Bytes): (r: Option<RootFilter>)
    requires |form| > 0
    ensures r.Some? ==> Extends(f, r.value) && (LettersFold(f) ==> LettersFold(r.value))
    ensures r.Some? && |f.pairs| <= MAX_PAIRS ==> |r.value.pairs| <= MAX_PAIRS
    ensures r.Some? ==> forall b :: b in r.value.ones ==> b in f.ones || form == [b]
    ensures r.Some? ==> forall h: Bytes, q: nat :: q + |form| <= |h| && h[q..q + |form|] == form ==> Admits(r.value, h, q)
  {
    if |form| == 1 then
      assert forall h: Bytes, q: nat :: q + |form| <= |h| && h[q..q + |form|] == form ==> h[q] == form[0];
      AddOne(f, form[0])
    else
      var pair := RootPair(form[0], form[1], false, false);
      var r := AddPair(f, pair);
      assert r.Some? ==> forall h: Bytes, q: nat :: q + |form| <= |h| && h[q..q + |form|] == form ==> Admits(r.value, h, q) by {
        if r.Some? {
          forall h: Bytes, q: nat | q + |form| <= |h| && h[q..q + |form|] == form ensures Admits(r.value, h, q) {
            assert h[q] == h[q..q + |form|][0] && h[q + 1] == h[q..q + |form|][1];
            var k :| 0 <= k < |r.value.pairs| && r.value.pairs[k] == pair;
            assert PairMatches(r.value.pairs[k], h[q], h[q + 1]);
          }
        }
      }
      r
  }

  // ----- compiling the root filter

  /** The filter holds one-byte spellings as such, and at most sixteen entries of either
      kind; only letters fold. */
  ghost predicate Held(tk: Tokens, f: RootFilter) {
    LettersFold(f) && Tidy(f.ones) && Tidy(f.pairs) && forall b :: b in f.ones ==> OneByteForm(tk, b)
  }

  ghost predicate OneByteForm(tk: Tokens, b: byte) {
    exists token: nat :: token != 0 && IsForm(tk, token, [b])
  }

  /** The one-byte spellings of a token. */
  ghost function FormOnes(tk: Tokens, token: nat): iset<byte> {
    iset b: byte | IsForm(tk, token, [b])
  }

  /** The first two bytes of its longer spellings. */
  ghost function FormPairs(tk: Tokens, token: nat): iset<RootPair> {
    iset pair: RootPair | LongForm(tk, token, pair)
  }

  ghost predicate LongForm(tk: Tokens, token: nat, pair: RootPair) {
    exists f :: IsForm(tk, token, f) && Begins(f, pair)
  }

  /** The pair is the first two bytes of a longer spelling. */
  predicate Begins(f: Bytes, pair: RootPair) {
    |f| > 1 && pair == RootPair(f[0], f[1], false, false)
  }

  /** The first two bytes of a token that `next` follows. */
  ghost function JoinPairs(tk: Tokens, token: nat, next: nat): iset<RootPair> {
    iset pair: RootPair | Joined(tk, token, next, pair)
  }

  ghost predicate Joined(tk: Tokens, token: nat, next: nat, pair: RootPair) {
    exists f :: IsForm(tk, token, f) && FormJoined(tk, f, next, pair)
  }

  ghost predicate FormJoined(tk: Tokens, f: Bytes, next: nat, pair: RootPair) {
    Begins(f, pair) || (|f| == 1 && exists g :: IsForm(tk, next, g) && |g| > 0 && pair == JoinOf(f, g))
  }

  ghost function FormJoins(tk: Tokens, f: Bytes, next: nat): iset<RootPair> {
    iset pair: RootPair | FormJoined(tk, f, next, pair)
  }

  /** The entry for one spelling. */
  ghost function EntryOnes(form: Bytes): iset<byte> {
    iset b: byte | form == [b]
  }

  ghost function EntryPairs(form: Bytes): iset<RootPair> {
    iset pair: RootPair | Begins(form, pair)
  }

  /** Both kinds of entries on their way. */
  ghost predicate Growing(f0: RootFilter, ones: iset<byte>, pairs: iset<RootPair>, f: RootFilter) {
    Filling(f0.ones, ones, f.ones) && Filling(f0.pairs, pairs, f.pairs)
  }

  ghost predicate Grown(ones: iset<byte>, pairs: iset<RootPair>, f: RootFilter) {
    (forall b :: b in ones ==> b in f.ones) && forall c :: c in pairs ==> c in f.pairs
  }

  ghost predicate RoomFor(f: RootFilter, ones: iset<byte>, pairs: iset<RootPair>) {
    Room(f.ones, ones) && Room(f.pairs, pairs)
  }

  lemma {:induction false} GrowStep(f0: RootFilter, ones: iset<byte>, pairs: iset<RootPair>, cur: RootFilter, o: iset<byte>, c: iset<RootPair>, next: RootFilter)
    requires Growing(f0, ones, pairs, cur) && Growing(cur, o, c, next) && o <= ones && c <= pairs
    ensures Growing(f0, ones, pairs, next)
  {
    FillStep(f0.ones, ones, cur.ones, o, next.ones);
    FillStep(f0.pairs, pairs, cur.pairs, c, next.pairs);
  }

  lemma {:induction false} GrowFails(f0: RootFilter, ones: iset<byte>, pairs: iset<RootPair>, cur: RootFilter, o: iset<byte>, c: iset<RootPair>)
    requires Growing(f0, ones, pairs, cur) && o <= ones && c <= pairs && !RoomFor(cur, o, c)
    ensures !RoomFor(f0, ones, pairs)
  {
    if !Room(cur.ones, o) {
      FillFails(f0.ones, ones, cur.ones, o);
    } else {
      FillFails(f0.pairs, pairs, cur.pairs, c);
    }
  }

  lemma {:induction false} GrowDone(f0: RootFilter, ones: iset<byte>, pairs: iset<RootPair>, f: RootFilter)
    requires Growing(f0, ones, pairs, f) && Grown(ones, pairs, f)
    ensures RoomFor(f0, ones, pairs)
  {
    Filled(f0.ones, ones, f.ones);
    Filled(f0.pairs, pairs, f.pairs);
  }

  /** A spelling is entered exactly when there is room for it. */
  lemma {:induction false} PrefixHeld(tk: Tokens, token: nat, f: RootFilter, form: Bytes)
    requires Held(tk, f) && |form| > 0 && token != 0 && IsForm(tk, token, form)
    ensures var more := AddPrefix(f, form);
            && (more.Some? <==> RoomFor(f, EntryOnes(form), EntryPairs(form)))
            && (more.Some? ==> Held(tk, more.value) && Growing(f, EntryOnes(form), EntryPairs(form), more.value)
                               && Grown(EntryOnes(form), EntryPairs(form), more.value))
  {
    hide Admits, IsForm, LettersFold;
    var more := AddPrefix(f, form);
    Filler(f.ones, EntryOnes(form));
    Filler(f.pairs, EntryPairs(form));
    if |form| == 1 {
      assert form == [form[0]];
      EnterOne(f.ones, form[0], EntryOnes(form), if more.Some? then Some(more.value.ones) else None);
      Filled(f.pairs, EntryPairs(form), f.pairs);
    } else {
      EnterOne(f.pairs, RootPair(form[0], form[1], false, false), EntryPairs(form), if more.Some? then Some(more.value.pairs) else None);
      Filled(f.ones, EntryOnes(form), f.ones);
    }
    if more.Some? {
      forall b | b in more.value.ones ensures OneByteForm(tk, b) {
        if b !in f.ones {
          assert form == [b];
        }
      }
    }
  }

  lemma {:induction false} EntryPart(tk: Tokens, token: nat, form: Bytes)
    requires IsForm(tk, token, form)
    ensures EntryOnes(form) <= FormOnes(tk, token) && EntryPairs(form) <= FormPairs(tk, token)
  {
  }

  /** When every spelling has been entered, so has the token. */
  lemma {:induction false} EntriesDone(tk: Tokens, token: nat, forms: seq<Bytes>, f: RootFilter)
    requires (forall g :: IsForm(tk, token, g) <==> g in forms) && forall j: nat :: j < |forms| ==> Grown(EntryOnes(forms[j]), EntryPairs(forms[j]), f)
    ensures Grown(FormOnes(tk, token), FormPairs(tk, token), f)
  {
    hide IsForm;
    forall b | b in FormOnes(tk, token) ensures b in f.ones {
      var j :| 0 <= j < |forms| && forms[j] == [b];
      assert b in EntryOnes(forms[j]);
    }
    forall c | c in FormPairs(tk, token) ensures c in f.pairs {
      var g :| IsForm(tk, token, g) && Begins(g, c);
      var j :| 0 <= j < |forms| && forms[j] == g;
      assert c in EntryPairs(forms[j]);
    }
  }

  lemma {:induction false} GrownMore(ones: iset<byte>, pairs: iset<RootPair>, f: RootFilter, f': RootFilter)
    requires Grown(ones, pairs, f) && Extends(f, f')
    ensures Grown(ones, pairs, f')
  {
  }

  /** Every pattern that starts with `token` continues with `next`, at the next byte,
      whenever its first unit is one byte. */
  ghost predicate Requires(p: SearchPlan, token: nat, next: nat)
    reads p
  {
    forall h: Bytes, q: nat, i: nat :: Starts(p, h, q, i) && TokenAt(p, h, q) == token ==>
      var r := q + SizeAt(p.mode, h, q);
      r < |h| && TokenAt(p, h, r) == next
  }

  /** The first token of a pattern is the token of the unit it starts with. */
  lemma {:induction false} StartToken(p: SearchPlan, h: Bytes, q: nat, i: nat)
    requires p.Valid() && Starts(p, h, q, i)
    ensures i < |p.toks| && |p.toks[i]| == |p.Ps()[i]| > 0 && TokenAt(p, h, q) == p.toks[i][0] != 0
    ensures |p.toks[i]| > 1 ==>
              var r := q + SizeAt(p.mode, h, q); r < |h| && TokenAt(p, h, r) == p.toks[i][1]
  {
    hide AllLinked, AllRows, TokensAreClasses, Same, SizeAt, UnitAt;
    var a := p.Ps()[i];
    assert Spells(p.mode, p.tokens, a, p.toks[i]);
    if |a| > 1 {
      assert MatchEnd(p.mode, h, q + SizeAt(p.mode, h, q), a[1..]).Some?;
      assert a[1..][0] == a[1];
    }
  }

  /** Prefixes of a pattern's word are words of the trie. */
  lemma {:induction false} PrefixWord(words: seq<Word>, ix: map<Word, nat>, w: Word, k: nat)
    requires WordIndex(words, ix) && w in ix && k <= |w|
    ensures w[..k] in ix
    decreases |w| - k
  {
    if k < |w| {
      PrefixWord(words, ix, w, k + 1);
      assert Front(w[..k + 1]) == w[..k];
    } else {
      assert w[..k] == w;
    }
  }

  /** The root's only silent continuation is required. */
  lemma {:induction false} SoleContinuation(p: SearchPlan, token: nat, child: nat, next: nat)
    requires p.Valid() && child < |p.nodes| && p.words[child] == [token] && p.nodes[child].output == NoOutput
    requires p.nodes[child].edges.Keys == {next}
    ensures Requires(p, token, next)
  {
    hide AllRows, TokensAreClasses;
    forall h: Bytes, q: nat, i: nat | Starts(p, h, q, i) && TokenAt(p, h, q) == token
      ensures var r := q + SizeAt(p.mode, h, q); r < |h| && TokenAt(p, h, r) == next
    {
      StartToken(p, h, q, i);
      SecondToken(p, token, child, next, i);
    }
  }

  lemma {:induction false} SecondToken(p: SearchPlan, token: nat, child: nat, next: nat, i: nat)
    requires p.Valid() && child < |p.nodes| && p.words[child] == [token] && p.nodes[child].output == NoOutput
    requires p.nodes[child].edges.Keys == {next}
    requires i < |p.toks| && |p.toks[i]| > 0 && p.toks[i][0] == token
    ensures |p.toks[i]| > 1 && p.toks[i][1] == next
  {
    hide AllRows, TokensAreClasses, Spells, IsFailure;
    assert NodeLinked(p.nodes, p.words, p.ix, p.toks, child);
    assert p.toks[i] in p.ix;
    SecondEdge(p.nodes, p.words, p.ix, child, next, p.toks[i]);
    assert !IsSuffix(p.toks[i], [token]);
  }

  lemma {:induction false} SecondEdge(nodes: seq<Node>, words: seq<Word>, ix: map<Word, nat>, child: nat, next: nat, w: Word)
    requires IsTrie(nodes, words, ix) && child < |nodes| && nodes[child].edges.Keys == {next}
    requires w in ix && |w| > 0 && words[child] == [w[0]]
    ensures |w| == 1 ==> IsSuffix(w, words[child])
    ensures |w| > 1 ==> w[1] == next
  {
    if |w| > 1 {
      PrefixWord(words, ix, w, 2);
      assert w[..2] == words[child] + [w[1]];
      assert w[1] in nodes[child].edges;
    }
  }

  /** Enter every spelling of a root, by first byte or first two bytes, when there is room. */
  method AddRoot(p: SearchPlan, f0: RootFilter, token: nat) returns (f: Option<RootFilter>)
    requires p.Valid() && token != 0
    requires Held(p.tokens, f0)
    ensures f.Some? ==> Held(p.tokens, f.value) && Extends(f0, f.value) && Covers(p, f.value, token)
    ensures f.Some? <==> RoomFor(f0, FormOnes(p.tokens, token), FormPairs(p.tokens, token))
    ensures f.Some? ==> Growing(f0, FormOnes(p.tokens, token), FormPairs(p.tokens, token), f.value)
  {
    hide SearchPlan.Valid, Admits, Held, IsForm, MatchEnd, FormLen, FormRune, Growing, Grown, RoomFor, FormOnes, FormPairs, EntryOnes, EntryPairs;
    var forms := Forms(p.tokens, token);
    ghost var ones, pairs := FormOnes(p.tokens, token), FormPairs(p.tokens, token);
    var cur := f0;
    NothingGrown(p.tokens, f0, ones, pairs);
    for k := 0 to |forms|
      invariant Held(p.tokens, cur) && Extends(f0, cur) && Growing(f0, ones, pairs, cur)
      invariant forall j: nat :: j < k ==> FormAdmitted(cur, forms[j]) && Grown(EntryOnes(forms[j]), EntryPairs(forms[j]), cur)
    {
      var next := AddPrefix(cur, forms[k]);
      assert forms[k] in forms;
      PrefixHeld(p.tokens, token, cur, forms[k]);
      EntryPart(p.tokens, token, forms[k]);
      if next.None? {
        GrowFails(f0, ones, pairs, cur, EntryOnes(forms[k]), EntryPairs(forms[k]));
        return None;
      }
      forall j: nat | j < k ensures FormAdmitted(next.value, forms[j]) && Grown(EntryOnes(forms[j]), EntryPairs(forms[j]), next.value) {
        FormStays(cur, next.value, forms[j]);
        GrownMore(EntryOnes(forms[j]), EntryPairs(forms[j]), cur, next.value);
      }
      GrowStep(f0, ones, pairs, cur, EntryOnes(forms[k]), EntryPairs(forms[k]), next.value);
      cur := next.value;
    }
    EntriesDone(p.tokens, token, forms, cur);
    GrowDone(f0, ones, pairs, cur);
    forall h: Bytes, q: nat, i: nat | Starts(p, h, q, i) && TokenAt(p, h, q) == token ensures Admits(cur, h, q) {
      UnitForm(p, h, q);
      var form := h[q..q + SizeAt(p.mode, h, q)];
      var j :| 0 <= j < |forms| && forms[j] == form;
      assert FormAdmitted(cur, forms[j]);
    }
    return Some(cur);
  }

  lemma {:induction false} NothingGrown(tk: Tokens, f: RootFilter, ones: iset<byte>, pairs: iset<RootPair>)
    requires Held(tk, f)
    ensures Growing(f, ones, pairs, f)
  {
    Filler(f.ones, ones);
    Filler(f.pairs, pairs);
  }

  /** Every position that spells `form` is admitted. */
  ghost predicate FormAdmitted(f: RootFilter, form: Bytes) {
    forall h: Bytes, q: nat :: q + |form| <= |h| && h[q..q + |form|] == form ==> Admits(f, h, q)
  }

  lemma {:induction false} FormStays(f: RootFilter, f': RootFilter, form: Bytes)
    requires Extends(f, f') && FormAdmitted(f, form)
    ensures FormAdmitted(f', form)
  {
    forall h: Bytes, q: nat | q + |form| <= |h| && h[q..q + |form|] == form ensures Admits(f', h, q) {
      ExtendsAdmits(f, f', h, q);
    }
  }

  /** Enter a root together with its required next token: two bytes, of the root alone
      or of the root and its continuation, when there is room. */
  method AddRequiredNext(p: SearchPlan, f0: RootFilter, token: nat, next: nat) returns (f: Option<RootFilter>)
    requires p.Valid() && token != 0 && next != 0 && Requires(p, token, next)
    requires Held(p.tokens, f0)
    ensures f.Some? ==> Held(p.tokens, f.value) && Extends(f0, f.value) && Covers(p, f.value, token)
    ensures f.Some? <==> Room(f0.pairs, JoinPairs(p.tokens, token, next))
    ensures f.Some? ==> f.value.ones == f0.ones && Filling(f0.pairs, JoinPairs(p.tokens, token, next), f.value.pairs)
  {
    hide SearchPlan.Valid, Admits, Held, IsForm, JoinPairs, FormJoins, Filling, Room, Requires, PairsAdmitted;
    var first := Forms(p.tokens, token);
    var second := Forms(p.tokens, next);
    ghost var want := JoinPairs(p.tokens, token, next);
    var cur := f0;
    PairsTidy(p.tokens, f0, want);
    for k := 0 to |first|
      invariant Held(p.tokens, cur) && Extends(f0, cur) && cur.ones == f0.ones && Filling(f0.pairs, want, cur.pairs)
      invariant forall j: nat :: j < k ==> PairsAdmitted(cur, first[j], second) && AllIn(FormJoins(p.tokens, first[j], next), cur.pairs)
    {
      assert first[k] in first;
      JoinPart(p.tokens, token, first[k], next);
      var added := AddPairs(p.tokens, token, next, cur, first[k], second);
      if added.None? {
        FillFails(f0.pairs, want, cur.pairs, FormJoins(p.tokens, first[k], next));
        return None;
      }
      forall j: nat | j < k ensures PairsAdmitted(added.value, first[j], second) && AllIn(FormJoins(p.tokens, first[j], next), added.value.pairs) {
        PairsStay(cur, added.value, first[j], second);
      }
      FillStep(f0.pairs, want, cur.pairs, FormJoins(p.tokens, first[k], next), added.value.pairs);
      cur := added.value;
    }
    JoinsDone(p.tokens, token, next, first, cur.pairs);
    Filled(f0.pairs, want, cur.pairs);
    RequiredCovers(p, cur, token, next, first, second);
    return Some(cur);
  }

  ghost predicate AllIn(want: iset<RootPair>, pairs: seq<RootPair>) {
    forall c :: c in want ==> c in pairs
  }

  lemma {:induction false} PairsTidy(tk: Tokens, f: RootFilter, want: iset<RootPair>)
    requires Held(tk, f)
    ensures Filling(f.pairs, want, f.pairs)
  {
  }

  lemma {:induction false} JoinPart(tk: Tokens, token: nat, form: Bytes, next: nat)
    requires IsForm(tk, token, form)
    ensures FormJoins(tk, form, next) <= JoinPairs(tk, token, next)
  {
    hide IsForm, FormJoined;
  }

  lemma {:induction false} JoinsDone(tk: Tokens, token: nat, next: nat, first: seq<Bytes>, pairs: seq<RootPair>)
    requires (forall f :: IsForm(tk, token, f) <==> f in first) && forall j: nat :: j < |first| ==> AllIn(FormJoins(tk, first[j], next), pairs)
    ensures AllIn(JoinPairs(tk, token, next), pairs)
  {
    hide IsForm, FormJoined;
    forall c | c in JoinPairs(tk, token, next) ensures c in pairs {
      var f :| IsForm(tk, token, f) && FormJoined(tk, f, next, c);
      var j :| 0 <= j < |first| && first[j] == f;
      assert c in FormJoins(tk, first[j], next);
    }
  }

  lemma {:induction false} RequiredCovers(p: SearchPlan, f: RootFilter, token: nat, next: nat, first: seq<Bytes>, second: seq<Bytes>)
    requires p.Valid() && token != 0 && next != 0 && Requires(p, token, next)
    requires (forall g :: IsForm(p.tokens, token, g) <==> g in first) && forall g :: IsForm(p.tokens, next, g) <==> g in second
    requires forall j: nat :: j < |first| ==> PairsAdmitted(f, first[j], second)
    ensures Covers(p, f, token)
  {
    hide SearchPlan.Valid, Admits, IsForm;
    forall h: Bytes, q: nat, i: nat | Starts(p, h, q, i) && TokenAt(p, h, q) == token ensures Admits(f, h, q) {
      PairedStart(p, h, q, first, second, next);
    }
  }

  /** A start whose next unit has the token `next` spells a form and goes on with the
      head of a form of `next`. */
  lemma {:induction false} PairedStart(p: SearchPlan, h: Bytes, q: nat, first: seq<Bytes>, second: seq<Bytes>, next: nat)
    requires q < |h| && TokenAt(p, h, q) != 0 && next != 0
    requires forall f :: IsForm(p.tokens, TokenAt(p, h, q), f) ==> f in first
    requires forall f :: IsForm(p.tokens, next, f) ==> f in second
    requires var r := q + SizeAt(p.mode, h, q); r < |h| && TokenAt(p, h, r) == next
    ensures exists j: nat :: j < |first| && q + |first[j]| < |h| && h[q..q + |first[j]|] == first[j] && HeadOf(second, h[q + |first[j]|])
  {
    UnitForm(p, h, q);
    var r := q + SizeAt(p.mode, h, q);
    var form := h[q..r];
    var j: nat :| j < |first| && first[j] == form;
    UnitForm(p, h, r);
    var form2 := h[r..r + SizeAt(p.mode, h, r)];
    assert h[r] == form2[0];
    var j2 :| 0 <= j2 < |second| && second[j2] == form2;
    assert HeadOf(second, h[q + |first[j]|]);
  }

  /** Some spelling of the continuation begins with `b`. */
  ghost predicate HeadOf(second: seq<Bytes>, b: byte) {
    exists j :: 0 <= j < |second| && |second[j]| > 0 && second[j][0] == b
  }

  /** Every position that spells `form` and goes on with a continuation is admitted. */
  ghost predicate PairsAdmitted(f: RootFilter, form: Bytes, second: seq<Bytes>) {
    forall h: Bytes, q: nat :: q + |form| < |h| && h[q..q + |form|] == form && HeadOf(second, h[q + |form|]) ==> Admits(f, h, q)
  }

  lemma {:induction false} PairsStay(f: RootFilter, f': RootFilter, form: Bytes, second: seq<Bytes>)
    requires Extends(f, f') && PairsAdmitted(f, form, second)
    ensures PairsAdmitted(f', form, second)
  {
    forall h: Bytes, q: nat | q + |form| < |h| && h[q..q + |form|] == form && HeadOf(second, h[q + |form|]) ensures Admits(f', h, q) {
      ExtendsAdmits(f, f', h, q);
    }
  }

  method AddPairs(ghost tk: Tokens, ghost token: nat, ghost next: nat, f0: RootFilter, form: Bytes, second: seq<Bytes>) returns (f: Option<RootFilter>)
    requires |form| > 0 && forall s :: s in second ==> |s| > 0
    requires Held(tk, f0) && token != 0 && IsForm(tk, token, form) && forall g :: IsForm(tk, next, g) <==> g in second
    ensures f.Some? ==> Held(tk, f.value) && Extends(f0, f.value) && PairsAdmitted(f.value, form, second)
    ensures f.Some? <==> Room(f0.pairs, FormJoins(tk, form, next))
    ensures f.Some? ==> f.value.ones == f0.ones && Filling(f0.pairs, FormJoins(tk, form, next), f.value.pairs)
    ensures f.Some? ==> AllIn(FormJoins(tk, form, next), f.value.pairs)
  {
    hide IsForm, Held, Filling, Room, Admits, FormJoins;
    ghost var want := FormJoins(tk, form, next);
    if |form| > 1 {
      f := AddPrefix(f0, form);
      LongJoin(tk, token, next, f0, form);
      return;
    }
    var cur := f0;
    PairsTidy(tk, f0, want);
    for k := 0 to |second|
      invariant Held(tk, cur) && Extends(f0, cur) && cur.ones == f0.ones && Filling(f0.pairs, want, cur.pairs)
      invariant forall j: nat :: j < k ==> JoinOf(form, second[j]) in cur.pairs
    {
      assert second[k] in second;
      ghost var one: iset<RootPair> := iset{JoinOf(form, second[k])};
      OneJoin(tk, form, next, second[k]);
      var more := AddPair(cur, JoinOf(form, second[k]));
      JoinEntered(tk, cur, JoinOf(form, second[k]));
      if more.None? {
        FillFails(f0.pairs, want, cur.pairs, one);
        return None;
      }
      FillStep(f0.pairs, want, cur.pairs, one, more.value.pairs);
      cur := more.value;
    }
    ShortJoins(tk, form, next, second, cur.pairs);
    Filled(f0.pairs, want, cur.pairs);
    JoinsAdmit(cur, form, second);
    return Some(cur);
  }

  lemma {:induction false} LongJoin(tk: Tokens, token: nat, next: nat, f: RootFilter, form: Bytes)
    requires Held(tk, f) && |form| > 1 && token != 0 && IsForm(tk, token, form)
    ensures var more, want := AddPrefix(f, form), FormJoins(tk, form, next);
            && (more.Some? <==> Room(f.pairs, want))
            && (more.Some? ==> Held(tk, more.value) && more.value.ones == f.ones && Filling(f.pairs, want, more.value.pairs) && AllIn(want, more.value.pairs))
  {
    hide Admits, IsForm;
    PrefixHeld(tk, token, f, form);
    assert FormJoins(tk, form, next) == EntryPairs(form);
    Filled(f.ones, EntryOnes(form), f.ones);
  }

  lemma {:induction false} OneJoin(tk: Tokens, form: Bytes, next: nat, g: Bytes)
    requires |form| == 1 && IsForm(tk, next, g) && |g| > 0
    ensures JoinOf(form, g) in FormJoins(tk, form, next) && FoldsLetters(JoinOf(form, g))
  {
    hide IsForm;
  }

  lemma {:induction false} JoinEntered(tk: Tokens, f: RootFilter, pair: RootPair)
    requires Held(tk, f) && FoldsLetters(pair)
    ensures var more, want := AddPair(f, pair), iset{pair};
            && (more.Some? <==> Room(f.pairs, want))
            && (more.Some? ==> Held(tk, more.value) && Filling(f.pairs, want, more.value.pairs))
  {
    var more := AddPair(f, pair);
    EnterOne(f.pairs, pair, iset{pair}, if more.Some? then Some(more.value.pairs) else None);
  }

  lemma {:induction false} ShortJoins(tk: Tokens, form: Bytes, next: nat, second: seq<Bytes>, pairs: seq<RootPair>)
    requires |form| == 1 && (forall g :: IsForm(tk, next, g) <==> g in second) && (forall g :: g in second ==> |g| > 0)
    requires forall j: nat :: j < |second| ==> JoinOf(form, second[j]) in pairs
    ensures AllIn(FormJoins(tk, form, next), pairs)
  {
    hide IsForm;
    forall c | c in FormJoins(tk, form, next) ensures c in pairs {
      var g :| IsForm(tk, next, g) && |g| > 0 && c == JoinOf(form, g);
      var j :| 0 <= j < |second| && second[j] == g;
    }
  }

  lemma {:induction false} JoinsAdmit(f: RootFilter, form: Bytes, second: seq<Bytes>)
    requires |form| == 1 && forall j: nat :: j < |second| && |second[j]| > 0 ==> JoinOf(form, second[j]) in f.pairs
    ensures PairsAdmitted(f, form, second)
  {
    forall h: Bytes, q: nat | q + 1 < |h| && h[q..q + 1] == form && HeadOf(second, h[q + 1]) ensures Admits(f, h, q) {
      assert h[q] == h[q..q + 1][0];
      var j :| 0 <= j < |second| && |second[j]| > 0 && second[j][0] == h[q + 1];
      var k :| 0 <= k < |f.pairs| && f.pairs[k] == JoinOf(form, second[j]);
      assert PairMatches(f.pairs[k], h[q], h[q + 1]);
    }
  }

  function JoinOf(form: Bytes, second: Bytes): RootPair
    requires |form| > 0 && |second| > 0
  {
    RootPair(Compact(form).0[0], Compact(second).0[0], Compact(form).1, Compact(second).1)
  }

  // ----- when the root filter is usable

  /** Nothing ends behind the root `token`, and `next` alone follows it. */
  ghost predicate Follower(p: SearchPlan, token: nat, next: nat)
    reads p
  {
    && |p.nodes| > 0 && token in p.nodes[0].edges
    && var child := p.nodes[0].edges[token];
       child < |p.nodes| && p.nodes[child].output == NoOutput && p.nodes[child].edges.Keys == {next}
  }

  /** The entries of a root are in the lists: joined with what follows it, if one token
      does, else alone. */
  ghost predicate RootListed(p: SearchPlan, token: nat, ones: seq<byte>, pairs: seq<RootPair>)
    reads p
  {
    if exists next: nat :: Follower(p, token, next)
    then forall next: nat :: Follower(p, token, next) ==> AllIn(JoinPairs(p.tokens, token, next), pairs)
    else AloneListed(p, token, ones, pairs)
  }

  ghost predicate AloneListed(p: SearchPlan, token: nat, ones: seq<byte>, pairs: seq<RootPair>)
    reads p
  {
    (forall b :: b in FormOnes(p.tokens, token) ==> b in ones) && AllIn(FormPairs(p.tokens, token), pairs)
  }

  ghost predicate RootToken(p: SearchPlan, excluded: set<nat>, token: nat)
    reads p
  {
    |p.nodes| > 0 && token in p.nodes[0].edges && token !in excluded
  }

  /** Sixteen single bytes and sixteen pairs hold the entries of all roots. */
  ghost predicate RootsListed(p: SearchPlan, excluded: set<nat>, ones: seq<byte>, pairs: seq<RootPair>)
    reads p
  {
    |ones| <= 16 && |pairs| <= 16 && forall token: nat :: RootToken(p, excluded, token) ==> RootListed(p, token, ones, pairs)
  }

  /** Sixteen single bytes are all spellings of all roots. */
  ghost predicate RootsShort(p: SearchPlan, excluded: set<nat>, ones: seq<byte>)
    reads p
  {
    |ones| <= 16 && forall token: nat :: RootToken(p, excluded, token) ==> AloneListed(p, token, ones, [])
  }

  /** The roots have room. */
  ghost predicate RootsFit(p: SearchPlan, excluded: set<nat>)
    reads p
  {
    || (exists ones: seq<byte>, pairs: seq<RootPair> :: RootsListed(p, excluded, ones, pairs))
    || (exists ones: seq<byte> :: RootsShort(p, excluded, ones))
  }

  /** Some root is an opaque continuation byte, which no filter can tell from the inside of
      a scalar. */
  ghost predicate UnsafeRoots(p: SearchPlan)
    reads p
  {
    |p.nodes| > 0 && exists b: byte :: IsContinuation(b) && p.tokens.Of(Raw(b)) in p.nodes[0].edges
  }

  ghost predicate Within(f: RootFilter, ones: seq<byte>, pairs: seq<RootPair>) {
    More(f.ones, ones) && More(f.pairs, pairs)
  }

  /** There is no room for a root beside `f`, neither joined with what follows it nor alone. */
  ghost predicate NoRoomFor(p: SearchPlan, f: RootFilter, token: nat)
    reads p
  {
    && !RoomFor(f, FormOnes(p.tokens, token), FormPairs(p.tokens, token))
    && forall next: nat :: Follower(p, token, next) ==> !Room(f.pairs, JoinPairs(p.tokens, token, next))
  }

  /** Every entry is one of a root. */
  ghost predicate FromRoots(p: SearchPlan, excluded: set<nat>, f: RootFilter)
    reads p
  {
    && (forall b :: b in f.ones ==> exists token: nat :: RootToken(p, excluded, token) && b in FormOnes(p.tokens, token))
    && forall c :: c in f.pairs ==> exists token: nat :: RootToken(p, excluded, token) && PairOfRoot(p, token, c)
  }

  ghost predicate PairOfRoot(p: SearchPlan, token: nat, c: RootPair)
    reads p
  {
    c in FormPairs(p.tokens, token) || exists next: nat :: Follower(p, token, next) && c in JoinPairs(p.tokens, token, next)
  }

  ghost predicate EntriesOf(p: SearchPlan, f0: RootFilter, token: nat, f: RootFilter)
    reads p
  {
    && (forall b :: b in f.ones ==> b in f0.ones || b in FormOnes(p.tokens, token))
    && forall c :: c in f.pairs ==> c in f0.pairs || PairOfRoot(p, token, c)
  }

  /** Some root finds no room beside entries of roots. */
  ghost predicate GaveUp(p: SearchPlan, excluded: set<nat>)
    reads p
  {
    exists token: nat, f: RootFilter :: RootToken(p, excluded, token) && GaveUpAt(p, excluded, token, f)
  }

  ghost predicate GaveUpAt(p: SearchPlan, excluded: set<nat>, token: nat, f: RootFilter)
    reads p
  {
    Held(p.tokens, f) && FromRoots(p, excluded, f) && NoRoomFor(p, f, token)
  }

  lemma {:induction false} MoreFromRoots(p: SearchPlan, excluded: set<nat>, f0: RootFilter, token: nat, f: RootFilter)
    requires FromRoots(p, excluded, f0) && RootToken(p, excluded, token) && EntriesOf(p, f0, token, f)
    ensures FromRoots(p, excluded, f)
  {
    hide RootToken, PairOfRoot, FormOnes;
  }

  lemma {:induction false} RequiredOf(p: SearchPlan, f0: RootFilter, token: nat, next: nat, f: RootFilter)
    requires Follower(p, token, next) && f.ones == f0.ones && Filling(f0.pairs, JoinPairs(p.tokens, token, next), f.pairs)
    ensures EntriesOf(p, f0, token, f)
  {
    hide JoinPairs, FormPairs, FormOnes, Follower;
  }

  lemma {:induction false} AloneOf(p: SearchPlan, f0: RootFilter, token: nat, f: RootFilter)
    requires Growing(f0, FormOnes(p.tokens, token), FormPairs(p.tokens, token), f)
    ensures EntriesOf(p, f0, token, f)
  {
    hide JoinPairs, FormPairs, FormOnes, Follower;
  }

  lemma {:induction false} OneFollower(p: SearchPlan, f: RootFilter, token: nat, next: nat)
    requires Follower(p, token, next) && !Room(f.pairs, JoinPairs(p.tokens, token, next))
    ensures forall n: nat :: Follower(p, token, n) ==> !Room(f.pairs, JoinPairs(p.tokens, token, n))
  {
    hide JoinPairs, Room;
    forall n: nat | Follower(p, token, n) ensures n == next {
      assert n in {next};
    }
  }

  /** What entering a root does to lists that hold the entries so far and those of the root. */
  ghost predicate EntersWithin(p: SearchPlan, f0: RootFilter, token: nat, f: Option<RootFilter>, ones: seq<byte>, pairs: seq<RootPair>)
    reads p
  {
    |ones| <= 16 && |pairs| <= 16 && Within(f0, ones, pairs) && RootListed(p, token, ones, pairs) ==> f.Some? && Within(f.value, ones, pairs)
  }

  ghost predicate EntersShort(p: SearchPlan, f0: RootFilter, token: nat, f: Option<RootFilter>, ones: seq<byte>)
    reads p
  {
    |ones| <= 16 && More(f0.ones, ones) && AloneListed(p, token, ones, []) ==> f.Some? && More(f.value.ones, ones)
  }

  lemma {:induction false} RequiredEnters(p: SearchPlan, f0: RootFilter, token: nat, next: nat, f: Option<RootFilter>)
    requires Follower(p, token, next) && (f.Some? <==> Room(f0.pairs, JoinPairs(p.tokens, token, next))) && Held(p.tokens, f0)
    requires f.Some? ==> f.value.ones == f0.ones && Filling(f0.pairs, JoinPairs(p.tokens, token, next), f.value.pairs)
    ensures forall ones: seq<byte>, pairs: seq<RootPair> :: EntersWithin(p, f0, token, f, ones, pairs)
    ensures f.Some? ==> forall ones: seq<byte> :: EntersShort(p, f0, token, f, ones)
  {
    forall ones: seq<byte>, pairs: seq<RootPair> | |pairs| <= 16 && Within(f0, ones, pairs) && RootListed(p, token, ones, pairs)
      ensures EntersWithin(p, f0, token, f, ones, pairs)
    {
      RoomWithin(f0.pairs, JoinPairs(p.tokens, token, next), pairs);
    }
  }

  lemma {:induction false} AloneEnters(p: SearchPlan, f0: RootFilter, token: nat, f: Option<RootFilter>)
    requires f.Some? <==> RoomFor(f0, FormOnes(p.tokens, token), FormPairs(p.tokens, token))
    requires f.Some? ==> Growing(f0, FormOnes(p.tokens, token), FormPairs(p.tokens, token), f.value)
    requires Held(p.tokens, f0)
    ensures forall ones: seq<byte> :: EntersShort(p, f0, token, f, ones)
    ensures forall ones: seq<byte>, pairs: seq<RootPair> ::
              |ones| <= 16 && |pairs| <= 16 && Within(f0, ones, pairs) && AloneListed(p, token, ones, pairs) ==> f.Some? && Within(f.value, ones, pairs)
  {
    hide FormOnes, FormPairs;
    forall ones: seq<byte>, pairs: seq<RootPair> | |ones| <= 16 && |pairs| <= 16 && Within(f0, ones, pairs) && AloneListed(p, token, ones, pairs)
      ensures f.Some? && Within(f.value, ones, pairs)
    {
      RoomWithin(f0.ones, FormOnes(p.tokens, token), ones);
      RoomWithin(f0.pairs, FormPairs(p.tokens, token), pairs);
    }
    forall ones: seq<byte> | |ones| <= 16 && More(f0.ones, ones) && AloneListed(p, token, ones, [])
      ensures EntersShort(p, f0, token, f, ones)
    {
      RoomWithin(f0.ones, FormOnes(p.tokens, token), ones);
      RoomWithin(f0.pairs, FormPairs(p.tokens, token), f0.pairs);
    }
  }

  /** Every pattern with a unit starts at the beginning of its own source. */
  lemma {:induction false} SelfMatch(m: Mode, s: Bytes, at: nat)
    requires m.Valid() && at <= |s|
    ensures MatchEnd(m, s, at, Units(m, s, at)) == Some(|s|)
    decreases |s| - at
  {
    hide Same, UnitAt, SizeAt;
    if at < |s| {
      var us, next := Units(m, s, at), at + SizeAt(m, s, at);
      assert us[0] == UnitAt(m, s, at) && us[1..] == Units(m, s, next);
      SameReflexive(m, us[0]);
      SelfMatch(m, s, next);
    }
  }

  lemma {:induction false} SelfStarts(p: SearchPlan, i: nat)
    requires p.Valid() && i < |p.Ps()| && p.Ps()[i] != []
    ensures Starts(p, p.patterns[i], 0, i)
  {
    hide AllRows, AllLinked, TokensAreClasses, MatchEnd, UnitAt, SizeAt;
    SelfMatch(p.mode, p.patterns[i], 0);
    NoUnits(p.mode, p.patterns[i]);
  }

  lemma {:induction false} NoUnits(m: Mode, s: Bytes)
    ensures s == [] ==> Units(m, s) == []
  {
  }

  /** The compiled root filter. When it is usable it is complete; and it is usable when the
      roots have room, none is an opaque continuation byte, and some pattern needs it. */
  method MakeRootFilter(p: SearchPlan, excluded: set<nat>) returns (f: RootFilter)
    requires p.Valid()
    ensures LettersFold(f) && Held(p.tokens, f) && (f.Usable() ==> Complete(p, f, excluded))
    ensures RootsFit(p, excluded) && !UnsafeRoots(p) ==> Complete(p, f, excluded)
    ensures Complete(p, f, excluded) || UnsafeRoots(p) || GaveUp(p, excluded)
  {
    hide FromRoots, EntriesOf, NoRoomFor, AllLinked, AllRows, TokensAreClasses, Admits, Covers, RootListed, AloneListed, RootToken, EntersWithin, EntersShort;
    StartState(p);
    f := RootFilter([], []);
    if exists b: byte :: IsContinuation(b) && p.tokens.Of(Raw(b)) in p.nodes[0].edges {
      return;
    }
    var token: nat := 1;
    NothingFrom(p, excluded);
    while token < p.stride
      invariant Held(p.tokens, f) && forall t: nat :: 0 < t < token && t in p.nodes[0].edges && t !in excluded ==> Covers(p, f, t)
      invariant forall ones: seq<byte>, pairs: seq<RootPair> :: RootsListed(p, excluded, ones, pairs) ==> Within(f, ones, pairs)
      invariant forall ones: seq<byte> :: RootsShort(p, excluded, ones) ==> More(f.ones, ones)
      invariant FromRoots(p, excluded, f)
    {
      if token in p.nodes[0].edges && token !in excluded {
        var f0 := f;
        var added := EnterRoot(p, f, token);
        ListedEnters(p, excluded, f, token, added);
        assert RootToken(p, excluded, token) by {
          IsRoot(p, excluded, token);
        }
        if added.None? {
          assert GaveUpAt(p, excluded, token, f);
          return RootFilter([], []);
        }
        MoreFromRoots(p, excluded, f, token, added.value);
        f := added.value;
        forall t: nat | 0 < t < token && t in p.nodes[0].edges && t !in excluded ensures Covers(p, f, t) {
          ExtendsCovers(p, f0, f, t);
        }
      }
      token := token + 1;
    }
    AllCovered(p, f, excluded);
  }

  lemma {:induction false} IsRoot(p: SearchPlan, excluded: set<nat>, token: nat)
    requires |p.nodes| > 0 && token in p.nodes[0].edges && token !in excluded
    ensures RootToken(p, excluded, token)
  {
  }

  lemma {:induction false} NothingFrom(p: SearchPlan, excluded: set<nat>)
    ensures FromRoots(p, excluded, RootFilter([], []))
  {
  }

  lemma {:induction false} ListedEnters(p: SearchPlan, excluded: set<nat>, f0: RootFilter, token: nat, f: Option<RootFilter>)
    requires |p.nodes| > 0 && token in p.nodes[0].edges && token !in excluded
    requires forall ones: seq<byte>, pairs: seq<RootPair> :: EntersWithin(p, f0, token, f, ones, pairs)
    requires forall ones: seq<byte> :: EntersShort(p, f0, token, f, ones)
    requires forall ones: seq<byte>, pairs: seq<RootPair> :: RootsListed(p, excluded, ones, pairs) ==> Within(f0, ones, pairs)
    requires forall ones: seq<byte> :: RootsShort(p, excluded, ones) ==> More(f0.ones, ones)
    ensures RootsFit(p, excluded) ==> f.Some?
    ensures f.Some? ==> forall ones: seq<byte>, pairs: seq<RootPair> :: RootsListed(p, excluded, ones, pairs) ==> Within(f.value, ones, pairs)
    ensures f.Some? ==> forall ones: seq<byte> :: RootsShort(p, excluded, ones) ==> More(f.value.ones, ones)
  {
    hide RootListed, AloneListed, Within, More;
    assert RootToken(p, excluded, token);
    forall ones: seq<byte>, pairs: seq<RootPair> | RootsListed(p, excluded, ones, pairs) ensures f.Some? && Within(f.value, ones, pairs) {
      assert EntersWithin(p, f0, token, f, ones, pairs);
    }
    forall ones: seq<byte> | RootsShort(p, excluded, ones) ensures f.Some? && More(f.value.ones, ones) {
      assert EntersShort(p, f0, token, f, ones);
    }
  }

  lemma {:induction false} AllCovered(p: SearchPlan, f: RootFilter, excluded: set<nat>)
    requires p.Valid() && |p.nodes| > 0 && forall t: nat :: 0 < t < p.stride && t in p.nodes[0].edges && t !in excluded ==> Covers(p, f, t)
    ensures Complete(p, f, excluded)
  {
    hide AllLinked, AllRows, TokensAreClasses, Admits, Covers;
    forall h: Bytes, q: nat, i: nat | Starts(p, h, q, i) && TokenAt(p, h, q) !in excluded ensures Admits(f, h, q) {
      StartToken(p, h, q, i);
      RootOf(p, i);
      CoversStart(p, f, h, q, i);
    }
  }

  lemma {:induction false} CoversStart(p: SearchPlan, f: RootFilter, h: Bytes, q: nat, i: nat)
    requires Starts(p, h, q, i) && Covers(p, f, TokenAt(p, h, q))
    ensures Admits(f, h, q)
  {
  }

  /** The first token of a pattern is an edge of the root. */
  lemma {:induction false} RootOf(p: SearchPlan, i: nat)
    requires p.Valid() && i < |p.toks| && |p.toks[i]| > 0
    ensures |p.nodes| > 0 && p.toks[i][0] in p.nodes[0].edges && 0 < p.toks[i][0] < p.stride
  {
    hide AllRows;
    assert p.toks[i] in p.ix;
    PrefixWord(p.words, p.ix, p.toks[i], 1);
    assert p.toks[i][..1] == [p.toks[i][0]];
    RootEdge(p, p.toks[i][0]);
    assert Spells(p.mode, p.tokens, p.Ps()[i], p.toks[i]);
    SameReflexive(p.mode, p.Ps()[i][0]);
    assert p.tokens.Of(p.Ps()[i][0]) == p.toks[i][0];
  }

  // ----- what the roots are

  lemma {:induction false} BeginsOne(p: SearchPlan, x: Word) returns (l: nat)
    requires p.NoSpareWord([]) && x in p.ix && x != []
    ensures l < |p.toks| && x <= p.toks[l]
  {
    l :| 0 <= l < |p.toks| && x <= p.toks[l];
  }

  /** The ASCII character folds with the first unit of some pattern. */
  ghost predicate AsciiStarts(p: SearchPlan, b: byte)
    reads p
  {
    p.mode.Valid() && IsAscii(b) && exists i :: 0 <= i < |p.Ps()| && p.Ps()[i] != [] && Same(p.mode, Rune(b), p.Ps()[i][0])
  }

  /** The ASCII root bytes are those. */
  lemma {:induction false} StartIsRoot(p: SearchPlan, b: byte)
    requires p.Valid() && p.NoSpareWord([]) && IsAscii(b)
    ensures |p.nodes| > 0 && (RootByte(p, b) <==> AsciiStarts(p, b))
  {
    hide AllRows, AllLinked, TokensAreClasses, Same, SearchPlan.NoSpareWord;
    var token := p.tokens.Of(Rune(b));
    RootEdge(p, token);
    if RootByte(p, b) {
      var l := BeginsOne(p, [token]);
      assert p.toks[l][0] == [token][0] && Spells(p.mode, p.tokens, p.Ps()[l], p.toks[l]);
    }
    if AsciiStarts(p, b) {
      var i :| 0 <= i < |p.Ps()| && p.Ps()[i] != [] && Same(p.mode, Rune(b), p.Ps()[i][0]);
      assert Spells(p.mode, p.tokens, p.Ps()[i], p.toks[i]);
      RootOf(p, i);
    }
  }

  /** The root is special exactly when all ASCII characters that start patterns fold
      together, and there is one. */
  lemma {:induction false} SpecialMeans(p: SearchPlan)
    requires p.Valid() && p.NoSpareWord([]) && Fold.FoldsAscii(p.mode.fold)
    ensures SpecialRoot(p) <==>
              && (exists b: byte :: AsciiStarts(p, b))
              && forall b: byte, c: byte :: AsciiStarts(p, b) && AsciiStarts(p, c) ==> Fold.SameOrbit(p.mode.fold, b, c)
  {
    hide SearchPlan.Valid, SearchPlan.NoSpareWord, AsciiStarts, RootByte;
    StartIsRoot(p, 0);
    var flags := RootFlags(p);
    forall b: byte | IsAscii(b) ensures flags[b] <==> AsciiStarts(p, b) {
      StartIsRoot(p, b);
    }
    forall b: byte, c: byte | AsciiStarts(p, b) && IsAscii(c) && Fold.SameOrbit(p.mode.fold, b, c) ensures AsciiStarts(p, c) {
      AlsoStarts(p, b, c);
    }
    OneOrbit(p.mode.fold, flags);
    forall b: byte | AsciiStarts(p, b) ensures IsAscii(b) {
      StartsAsAscii(p, b);
    }
  }

  lemma {:induction false} StartsAsAscii(p: SearchPlan, b: byte)
    requires AsciiStarts(p, b)
    ensures IsAscii(b)
  {
  }

  lemma {:induction false} AlsoStarts(p: SearchPlan, b: byte, c: byte)
    requires AsciiStarts(p, b) && IsAscii(c) && Fold.SameOrbit(p.mode.fold, b, c)
    ensures AsciiStarts(p, c)
  {
    hide Same;
    var i :| 0 <= i < |p.Ps()| && p.Ps()[i] != [] && Same(p.mode, Rune(b), p.Ps()[i][0]);
    Fold.OrbitSymmetric(p.mode.fold, b, c);
    assert Same(p.mode, Rune(c), Rune(b)) by { SameOf(p.mode, c, b); }
    SameTransitive(p.mode, Rune(c), Rune(b), p.Ps()[i][0]);
  }

  lemma {:induction false} SameOf(m: Mode, a: int, b: int)
    requires m.Valid()
    ensures Same(m, Rune(a), Rune(b)) <==> Fold.SameOrbit(m.fold, a, b)
  {
  }

  ghost predicate OneClass(t: Fold.Table, flags: seq<bool>)
    requires Fold.Valid(t) && |flags| == 0x80
  {
    forall b: byte, c: byte :: b < 0x80 && c < 0x80 && flags[b] && flags[c] ==> Fold.SameOrbit(t, b, c)
  }

  /** Flags that go with fold classes mark one byte or one letter when they mark one class. */
  lemma {:induction false} OneOrbit(t: Fold.Table, flags: seq<bool>)
    requires |flags| == 0x80 && Fold.FoldsAscii(t)
    requires forall b: byte, c: byte :: b < 0x80 && c < 0x80 && flags[b] && Fold.SameOrbit(t, b, c) ==> flags[c]
    ensures Special(flags) <==> (exists b: byte :: b < 0x80 && flags[b]) && OneClass(t, flags)
  {
    hide OneClass, OnlyFlagged;
    if b: byte :| b < 0x80 && flags[b] {
      if OneClass(t, flags) {
        ClassFlagged(t, flags, b);
      }
    }
    if b: byte :| OnlyFlagged(flags, b, b) {
      FlaggedClass(t, flags, b, b);
    }
    if b: byte :| IsAsciiLetter(b) && Lower(b) != b && OnlyFlagged(flags, b, Lower(b)) {
      FlaggedClass(t, flags, b, Lower(b));
    }
  }

  lemma {:induction false} ClassFlagged(t: Fold.Table, flags: seq<bool>, b: byte)
    requires |flags| == 0x80 && Fold.FoldsAscii(t) && b < 0x80 && flags[b] && OneClass(t, flags)
    requires forall b: byte, c: byte :: b < 0x80 && c < 0x80 && flags[b] && Fold.SameOrbit(t, b, c) ==> flags[c]
    ensures Special(flags)
  {
    hide Fold.SameOrbit;
    var upper: byte := if 0x61 <= b <= 0x7A then b - 0x20 else b;
    var lower: byte := if 0x41 <= b <= 0x5A then b + 0x20 else b;
    assert Fold.SameOrbit(t, b, upper) && Fold.SameOrbit(t, b, lower);
    forall c: byte | c < 0x80 ensures flags[c] <==> c == upper || c == lower {
      assert Fold.SameOrbit(t, b, c) <==> b == c || Fold.CasePair(b, c) || Fold.CasePair(c, b);
    }
    assert OnlyFlagged(flags, upper, lower);
    if upper != lower {
      assert Lower(upper) == lower && OnlyFlagged(flags, upper, Lower(upper));
    }
  }

  lemma {:induction false} FlaggedClass(t: Fold.Table, flags: seq<bool>, a: byte, b: byte)
    requires |flags| == 0x80 && Fold.FoldsAscii(t) && OnlyFlagged(flags, a, b) && (a == b || (IsAsciiLetter(a) && Lower(a) == b))
    ensures a < 0x80 && flags[a] && OneClass(t, flags)
  {
    hide Fold.SameOrbit;
    forall c: byte, d: byte | c < 0x80 && d < 0x80 && flags[c] && flags[d] ensures Fold.SameOrbit(t, c, d) {
      assert c == d || Fold.CasePair(c, d) || Fold.CasePair(d, c);
    }
  }

  method EnterRoot(p: SearchPlan, f0: RootFilter, token: nat) returns (f: Option<RootFilter>)
    requires p.Valid() && token != 0 && |p.nodes| > 0 && token in p.nodes[0].edges
    requires Held(p.tokens, f0)
    ensures f.Some? ==> Held(p.tokens, f.value) && Extends(f0, f.value) && Covers(p, f.value, token)
    ensures forall ones: seq<byte>, pairs: seq<RootPair> :: EntersWithin(p, f0, token, f, ones, pairs)
    ensures forall ones: seq<byte> :: EntersShort(p, f0, token, f, ones)
    ensures if f.Some? then EntriesOf(p, f0, token, f.value) else NoRoomFor(p, f0, token)
  {
    hide AllLinked, AllRows, TokensAreClasses, Admits, Covers, Held, Room, RoomFor, EntriesOf, Growing, Filling, JoinPairs, FormOnes, FormPairs, AloneListed, Within, EntersShort, EntersWithin, RootListed;
    RootEdge(p, token);
    var child := p.nodes[0].edges[token];
    var edges := p.nodes[child].edges.Keys;
    if p.nodes[child].output == NoOutput && |edges| == 1 {
      var next :| next in edges;
      Singleton(edges, next);
      SoleContinuation(p, token, child, next);
      EdgeNonzero(p, child, next);
      f := AddRequiredNext(p, f0, token, next);
      assert Follower(p, token, next);
      RequiredEnters(p, f0, token, next, f);
      if f.Some? {
        RequiredOf(p, f0, token, next, f.value);
        return;
      }
      OneFollower(p, f0, token, next);
      f := AddRoot(p, f0, token);
      AloneEnters(p, f0, token, f);
      FallbackEnters(p, f0, token, f);
    } else {
      NoFollower(p, token, child);
      f := AddRoot(p, f0, token);
      AloneEnters(p, f0, token, f);
      PlainEnters(p, f0, token, f);
    }
    if f.Some? {
      AloneOf(p, f0, token, f.value);
    }
  }

  /** Where joining fails no lists have the root joined, so anything may follow. */
  lemma {:induction false} FallbackEnters(p: SearchPlan, f0: RootFilter, token: nat, f: Option<RootFilter>)
    requires forall ones: seq<byte>, pairs: seq<RootPair> :: EntersWithin(p, f0, token, None, ones, pairs)
    ensures forall ones: seq<byte>, pairs: seq<RootPair> :: EntersWithin(p, f0, token, f, ones, pairs)
  {
    hide RootListed, Within;
    forall ones: seq<byte>, pairs: seq<RootPair> ensures EntersWithin(p, f0, token, f, ones, pairs) {
      assert EntersWithin(p, f0, token, None, ones, pairs);
    }
  }

  lemma {:induction false} PlainEnters(p: SearchPlan, f0: RootFilter, token: nat, f: Option<RootFilter>)
    requires forall next: nat :: !Follower(p, token, next)
    requires forall ones: seq<byte>, pairs: seq<RootPair> ::
               |ones| <= 16 && |pairs| <= 16 && Within(f0, ones, pairs) && AloneListed(p, token, ones, pairs) ==> f.Some? && Within(f.value, ones, pairs)
    ensures forall ones: seq<byte>, pairs: seq<RootPair> :: EntersWithin(p, f0, token, f, ones, pairs)
  {
    hide AloneListed, Within, Follower;
  }

  lemma {:induction false} NoFollower(p: SearchPlan, token: nat, child: nat)
    requires |p.nodes| > 0 && token in p.nodes[0].edges && p.nodes[0].edges[token] == child < |p.nodes|
    requires p.nodes[child].output != NoOutput || |p.nodes[child].edges.Keys| != 1
    ensures forall next: nat :: !Follower(p, token, next)
  {
  }

  lemma {:induction false} EdgeNonzero(p: SearchPlan, s: nat, t: nat)
    requires p.Valid() && s < |p.nodes| && t in p.nodes[s].edges
    ensures t != 0
  {
    hide AllRows, TokensAreClasses;
    var w := p.words[s] + [t];
    assert w in p.ix && Front(w) == p.words[s] && Last(w) == t;
  }

  // ----- skipping

  /** The positions from `at` on that the filter rejects. */
  method FilterSkipGeneralBytes(h: Bytes, at: nat, f: RootFilter) returns (skipped: nat)
    requires at <= |h|
    ensures at + skipped <= |h| && forall q :: at <= q < at + skipped ==> !Admits(f, h, q)
    ensures at + skipped < |h| ==> Admits(f, h, at + skipped)
  {
    var q := at;
    while q < |h| && !Admits(f, h, q)
      invariant at <= q <= |h| && forall r :: at <= r < q ==> !Admits(f, h, r)
    {
      q := q + 1;
    }
    skipped := q - at;
  }

  predicate PairSecond(f: RootFilter) {
    && f.ones == [] && |f.pairs| == 2
    && !f.pairs[0].foldFirst && !f.pairs[0].foldSecond && !f.pairs[1].foldFirst && !f.pairs[1].foldSecond
  }

  /** With two raw pairs and nothing else, scanning for their second bytes suffices. */
  method PairSecondSkipBytes(h: Bytes, at: nat, f: RootFilter) returns (skipped: nat)
    requires at <= |h| && PairSecond(f)
    ensures at + skipped <= |h| && forall q :: at <= q < at + skipped ==> !Admits(f, h, q)
    ensures at + skipped < |h| ==>
              at + skipped + 1 < |h| && (h[at + skipped + 1] == f.pairs[0].second || h[at + skipped + 1] == f.pairs[1].second)
  {
    if at + 1 >= |h| {
      return |h| - at;
    }
    var r := at + 1;
    while r < |h|
      invariant at < r <= |h| && forall q :: at <= q < r - 1 ==> !Admits(f, h, q)
    {
      if h[r] == f.pairs[0].second || h[r] == f.pairs[1].second {
        return r - 1 - at;
      }
      r := r + 1;
    }
    skipped := |h| - at;
  }
}
