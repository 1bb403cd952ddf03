/** The theory behind the compiled trie. Every node stands for a word, a prefix of
    some pattern. Scanning keeps the node of the longest word that is a suffix of
    the tokens read so far; failure links and outputs are facts about suffixes. */
module Automaton {

  type Word = seq<nat>

  datatype Output = NoOutput | Output(pattern: nat, units: nat)

  datatype Node = Node(edges: map<nat, nat>, failure: nat, output: Output)

  function Front(w: Word): (f: Word) {
    if w == [] then [] else w[..|w| - 1]
  }

  function Last(w: Word): nat
    requires w != []
  {
    w[|w| - 1]
  }

  predicate IsSuffix(w: Word, x: Word) {
    |w| <= |x| && x[|x| - |w|..] == w
  }

  // ----- the trie

  ghost predicate WordIndex(words: seq<Word>, ix: map<Word, nat>) {
    && [] in ix && ix[[]] == 0
    && (forall i :: 0 <= i < |words| ==> words[i] in ix && ix[words[i]] == i)
    && (forall w :: w in ix ==> ix[w] < |words| && words[ix[w]] == w)
    && (forall w {:trigger Front(w)} :: w in ix && w != [] ==> Front(w) in ix && Last(w) != 0)
  }

  lemma {:induction false} RootWord(words: seq<Word>, ix: map<Word, nat>)
    requires WordIndex(words, ix)
    ensures |words| > 0 && words[0] == []
    ensures forall s :: 0 < s < |words| ==> words[s] != []
  {
    assert words[ix[[]]] == [];
  }

  ghost predicate IsTrie(nodes: seq<Node>, words: seq<Word>, ix: map<Word, nat>) {
    && WordIndex(words, ix)
    && |nodes| == |words|
    && (forall s, t: nat :: 0 <= s < |nodes| ==> (t in nodes[s].edges <==> words[s] + [t] in ix))
    && (forall s, t: nat :: 0 <= s < |nodes| && t in nodes[s].edges ==> nodes[s].edges[t] == ix[words[s] + [t]])
  }

  /** Every pattern has been spelled into the trie. */
  ghost predicate Spelled(toks: seq<Word>, ix: map<Word, nat>) {
    forall i :: 0 <= i < |toks| ==> toks[i] in ix
  }

  // ----- longest suffix words

  /** The longest suffix of `x` that is a word. */
  ghost function Longest(ix: map<Word, nat>, x: Word): (w: Word)
    requires [] in ix
    ensures w in ix && IsSuffix(w, x)
    decreases |x|
  {
    if x in ix then x else Longest(ix, x[1..])
  }

  lemma {:induction false} LongestIsLongest(ix: map<Word, nat>, x: Word, w: Word)
    requires [] in ix && w in ix && IsSuffix(w, x)
    ensures IsSuffix(w, Longest(ix, x))
    decreases |x|
  {
    if x !in ix {
      assert IsSuffix(w, x[1..]) by {
        assert |w| < |x|;
        assert x[1..][|x| - 1 - |w|..] == x[|x| - |w|..];
      }
      LongestIsLongest(ix, x[1..], w);
    }
  }

  lemma {:induction false} LongestUnique(ix: map<Word, nat>, x: Word, w: Word)
    requires [] in ix && w in ix && IsSuffix(w, x)
    requires forall v :: v in ix && IsSuffix(v, x) ==> |v| <= |w|
    ensures Longest(ix, x) == w
  {
    LongestIsLongest(ix, x, w);
    var l := Longest(ix, x);
    assert l == l[|l| - |w|..];
  }

  lemma {:induction false} SuffixFull(w: Word, x: Word)
    requires IsSuffix(w, x)
    ensures |w| == |x| ==> w == x
  {
  }

  lemma {:induction false} SuffixTransitive(a: Word, b: Word, c: Word)
    requires IsSuffix(a, b) && IsSuffix(b, c)
    ensures IsSuffix(a, c)
  {
    assert c[|c| - |a|..] == c[|c| - |b|..][|b| - |a|..];
  }

  lemma {:induction false} SuffixAppend(w: Word, x: Word, t: nat)
    requires IsSuffix(w, x)
    ensures IsSuffix(w + [t], x + [t])
  {
    assert (x + [t])[|x| - |w|..] == x[|x| - |w|..] + [t];
  }

  lemma {:induction false} SuffixChop(w: Word, x: Word, t: nat)
    requires IsSuffix(w, x + [t]) && w != []
    ensures w == Front(w) + [t] && IsSuffix(Front(w), x)
  {
    var y := x + [t];
    assert w == y[|y| - |w|..];
    assert Front(w) == x[|x| - (|w| - 1)..];
  }

  /** One more token: only the longest suffix word matters for the next one. */
  lemma {:induction false} LongestStep(words: seq<Word>, ix: map<Word, nat>, x: Word, t: nat)
    requires WordIndex(words, ix)
    ensures Longest(ix, x + [t]) == Longest(ix, Longest(ix, x) + [t])
  {
    var l := Longest(ix, x);
    var r := Longest(ix, l + [t]);
    SuffixAppend(l, x, t);
    SuffixTransitive(r, l + [t], x + [t]);
    forall v | v in ix && IsSuffix(v, x + [t]) ensures |v| <= |r| {
      if v != [] {
        SuffixChop(v, x, t);
        LongestIsLongest(ix, x, Front(v));
        SuffixAppend(Front(v), l, t);
        LongestIsLongest(ix, l + [t], v);
      }
    }
    LongestUnique(ix, x + [t], r);
  }

  /** The token 0 occurs in no pattern, so it forgets everything. */
  lemma {:induction false} LongestReset(words: seq<Word>, ix: map<Word, nat>, x: Word)
    requires WordIndex(words, ix)
    ensures Longest(ix, x + [0]) == []
  {
    var l := Longest(ix, x + [0]);
    if l != [] {
      SuffixChop(l, x, 0);
      assert false;
    }
  }

  /** Where a transition leads: what both the failure walk and the dense table compute. */
  ghost function Target(words: seq<Word>, ix: map<Word, nat>, s: nat, t: nat): (n: nat)
    requires WordIndex(words, ix) && s < |words|
    ensures n < |words| && words[n] == Longest(ix, words[s] + [t])
  {
    ix[Longest(ix, words[s] + [t])]
  }

  /** The node a failure link must name: the longest proper suffix in the trie. */
  ghost predicate IsFailure(words: seq<Word>, ix: map<Word, nat>, s: nat, f: nat)
    requires WordIndex(words, ix)
  {
    s < |words| && f < |words| &&
    if s == 0 then f == 0 else words[s] != [] && words[f] == Longest(ix, words[s][1..])
  }

  /** The failure walk loses nothing: when a node has no edge, its failure node
      leads to the same target. */
  lemma {:induction false} TargetByFailure(words: seq<Word>, ix: map<Word, nat>, s: nat, f: nat, t: nat)
    requires WordIndex(words, ix) && IsFailure(words, ix, s, f)
    requires s != 0 && words[s] + [t] !in ix
    ensures Target(words, ix, s, t) == Target(words, ix, f, t)
    ensures |words[f]| < |words[s]|
  {
    var x := words[s][1..];
    assert (words[s] + [t])[1..] == x + [t];
    LongestStep(words, ix, x, t);
  }

  lemma {:induction false} TargetByEdge(words: seq<Word>, ix: map<Word, nat>, s: nat, t: nat)
    requires WordIndex(words, ix) && s < |words|
    ensures words[s] + [t] in ix ==> Target(words, ix, s, t) == ix[words[s] + [t]]
    ensures s == 0 && words[s] + [t] !in ix ==> Target(words, ix, s, t) == 0
  {
    if s == 0 && words[s] + [t] !in ix {
      RootWord(words, ix);
      assert (words[s] + [t])[1..] == [];
    }
  }

  /** A token that starts no word the next token continues is forgotten by then. */
  lemma {:induction false} IdleToken(words: seq<Word>, ix: map<Word, nat>, x: Word, t: nat, t': nat)
    requires [] in ix && WordIndex(words, ix) && Longest(ix, x + [t]) == Longest(ix, [t]) && [t, t'] !in ix
    ensures Longest(ix, x + [t] + [t']) == Longest(ix, [t'])
  {
    hide WordIndex, Longest, IsSuffix;
    LongestStep(words, ix, x + [t], t');
    LongestStep(words, ix, [t], t');
    assert [t] + [t'] == [t, t'];
    LongestDrop(ix, [t, t'], [t']);
  }

  lemma {:induction false} LongestDrop(ix: map<Word, nat>, x: Word, y: Word)
    requires [] in ix && x !in ix && |y| + 1 == |x| && x[1..] == y
    ensures Longest(ix, x) == Longest(ix, y)
  {
  }

  lemma {:induction false} TargetOfRoot(words: seq<Word>, ix: map<Word, nat>, t: nat)
    requires WordIndex(words, ix) && |words| > 0
    ensures words[Target(words, ix, 0, t)] == Longest(ix, [t])
  {
    RootWord(words, ix);
    assert [] + [t] == [t];
  }

  // ----- outputs

  /** `out` names the longest pattern that ends a text `x`, and the lowest index
      among equally long ones. */
  ghost predicate IsOutput(toks: seq<Word>, x: Word, out: Output) {
    match out
    case NoOutput => forall j :: 0 <= j < |toks| && toks[j] != [] ==> !IsSuffix(toks[j], x)
    case Output(i, n) =>
      && i < |toks| && n == |toks[i]| > 0 && IsSuffix(toks[i], x)
      && forall j :: 0 <= j < |toks| && toks[j] != [] && IsSuffix(toks[j], x) ==>
          |toks[j]| < n || (|toks[j]| == n && i <= j)
  }

  /** `out` names the lowest pattern spelled exactly `w`. */
  ghost predicate IsTerminal(toks: seq<Word>, w: Word, out: Output) {
    match out
    case NoOutput => w == [] || w !in toks
    case Output(i, n) => i < |toks| && w != [] && toks[i] == w && n == |w| && w !in toks[..i]
  }

  function Prefer(candidate: Output, current: Output): Output {
    if candidate.Output? && (current.NoOutput? || candidate.units > current.units ||
         (candidate.units == current.units && candidate.pattern < current.pattern))
    then candidate else current
  }

  /** One propagation step down a failure link keeps the whole chain's best output. */
  lemma {:induction false} Propagate(toks: seq<Word>, ix: map<Word, nat>, w: Word, own: Output, inherited: Output)
    requires [] in ix && Spelled(toks, ix) && w in ix && w != []
    requires IsTerminal(toks, w, own)
    requires IsOutput(toks, Longest(ix, w[1..]), inherited)
    ensures IsOutput(toks, w, Prefer(inherited, own))
  {
    var l := Longest(ix, w[1..]);
    assert IsSuffix(w[1..], w);
    SuffixTransitive(l, w[1..], w);
    forall j | 0 <= j < |toks| && IsSuffix(toks[j], w) && toks[j] != w ensures IsSuffix(toks[j], l) {
      SuffixFull(toks[j], w);
      assert w[1..][|w| - 1 - |toks[j]|..] == w[|w| - |toks[j]|..];
      LongestIsLongest(ix, w[1..], toks[j]);
    }
    if own.Output? {
      assert forall j :: 0 <= j < own.pattern ==> toks[j] == toks[..own.pattern][j];
    } else {
      assert forall j :: 0 <= j < |toks| ==> toks[j] != w;
    }
    if inherited.Output? {
      SuffixTransitive(toks[inherited.pattern], l, w);
    }
    assert IsSuffix(w, w);
    hide Longest, IsSuffix, Spelled;
  }

  /** The output of the state reached by a text is the output of that text. */
  lemma {:induction false} OutputOfText(toks: seq<Word>, ix: map<Word, nat>, x: Word, out: Output)
    requires [] in ix && Spelled(toks, ix) && IsOutput(toks, Longest(ix, x), out)
    ensures IsOutput(toks, x, out)
  {
    forall j | 0 <= j < |toks| && IsSuffix(toks[j], x) ensures IsSuffix(toks[j], Longest(ix, x)) {
      LongestIsLongest(ix, x, toks[j]);
    }
    if out.Output? {
      SuffixTransitive(toks[out.pattern], Longest(ix, x), x);
    }
  }
}
