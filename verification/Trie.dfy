/** Growing the trie by one node keeps it a trie. */
module Trie {
  import opened Automaton
  import opened Lexer
  import opened Spec

  function Grow(nodes: seq<Node>, s: nat, t: nat): seq<Node>
    requires s < |nodes|
  {
    nodes[s := nodes[s].(edges := nodes[s].edges[t := |nodes|])] + [Node(map[], 0, NoOutput)]
  }

  lemma {:induction false} GrowIndex(words: seq<Word>, ix: map<Word, nat>, s: nat, t: nat)
    requires WordIndex(words, ix) && s < |words| && t != 0 && words[s] + [t] !in ix
    ensures WordIndex(words + [words[s] + [t]], ix[words[s] + [t] := |words|])
  {
    var w := words[s] + [t];
    var words', ix' := words + [w], ix[w := |words|];
    assert Front(w) == words[s] && Last(w) == t;
    assert w != [] && ix'[[]] == 0;
    forall v | v in ix' ensures ix'[v] < |words'| && words'[ix'[v]] == v {
      if v != w { assert v in ix; }
    }
    forall v | v in ix' && v != [] ensures Front(v) in ix' && Last(v) != 0 {
      if v == w {
        assert words[s] in ix;
      } else {
        assert v in ix && Front(v) in ix;
      }
    }
    forall i | 0 <= i < |words'| ensures words'[i] in ix' && ix'[words'[i]] == i {
      if i < |words| { assert words[i] != w; }
    }
  }

  lemma {:induction false} GrowTrie(nodes: seq<Node>, words: seq<Word>, ix: map<Word, nat>, s: nat, t: nat)
    requires IsTrie(nodes, words, ix) && s < |nodes| && t != 0 && t !in nodes[s].edges
    ensures IsTrie(Grow(nodes, s, t), words + [words[s] + [t]], ix[words[s] + [t] := |words|])
  {
    var w := words[s] + [t];
    var nodes', words', ix' := Grow(nodes, s, t), words + [w], ix[w := |words|];
    GrowIndex(words, ix, s, t);
    forall r, u: nat | 0 <= r < |nodes'|
      ensures u in nodes'[r].edges <==> words'[r] + [u] in ix'
      ensures u in nodes'[r].edges ==> nodes'[r].edges[u] == ix'[words'[r] + [u]]
    {
      var v := words'[r] + [u];
      if r == |words| {
        assert Front(v) == w;
        assert v in ix ==> w in ix;
        assert v != w;
      } else {
        assert v == w ==> Front(v) == words[s] && Last(v) == t;
        assert v == w ==> words[r] == words[s] && u == t;
      }
    }
  }

  /** No pattern spelled so far ends at a node that is only now created. */
  ghost predicate Terminals(nodes: seq<Node>, words: seq<Word>, toks: seq<Word>)
    requires |nodes| == |words|
  {
    forall s :: 0 <= s < |nodes| ==> IsTerminal(toks, words[s], nodes[s].output) && nodes[s].failure == 0
  }

  lemma {:induction false} GrowTerminals(nodes: seq<Node>, words: seq<Word>, ix: map<Word, nat>, toks: seq<Word>, s: nat, t: nat)
    requires IsTrie(nodes, words, ix) && s < |nodes| && words[s] + [t] !in ix
    requires Terminals(nodes, words, toks) && Spelled(toks, ix)
    ensures Terminals(Grow(nodes, s, t), words + [words[s] + [t]], toks)
    ensures Spelled(toks, ix[words[s] + [t] := |words|])
  {
    var w := words[s] + [t];
    assert w !in toks;
  }

  /** The pattern just spelled becomes the terminal of its node, unless an earlier
      pattern is spelled the same. */
  lemma {:induction false} EndPattern(nodes: seq<Node>, words: seq<Word>, ix: map<Word, nat>, toks: seq<Word>, s: nat)
    requires IsTrie(nodes, words, ix) && s < |nodes| && words[s] != []
    requires Terminals(nodes, words, toks) && Spelled(toks, ix)
    ensures var out := Prefer(Output(|toks|, |words[s]|), nodes[s].output);
            var nodes' := nodes[s := nodes[s].(output := out)];
            IsTrie(nodes', words, ix) && Terminals(nodes', words, toks + [words[s]]) && Spelled(toks + [words[s]], ix)
  {
    var toks' := toks + [words[s]];
    assert toks'[..|toks|] == toks;
    var out := Prefer(Output(|toks|, |words[s]|), nodes[s].output);
    var nodes' := nodes[s := nodes[s].(output := out)];
    forall r | 0 <= r < |nodes| ensures IsTerminal(toks', words[r], nodes'[r].output) {
      assert IsTerminal(toks, words[r], nodes[r].output);
      assert r != s ==> words[r] != words[s];
      if nodes[r].output.Output? {
        assert toks'[..nodes[r].output.pattern] == toks[..nodes[r].output.pattern];
      }
    }
  }

  /** An empty pattern changes no terminal. */
  lemma {:induction false} SkipEmpty(nodes: seq<Node>, words: seq<Word>, ix: map<Word, nat>, toks: seq<Word>)
    requires IsTrie(nodes, words, ix) && Terminals(nodes, words, toks) && Spelled(toks, ix)
    ensures Terminals(nodes, words, toks + [[]]) && Spelled(toks + [[]], ix)
  {
    var toks' := toks + [[]];
    forall r | 0 <= r < |nodes| ensures IsTerminal(toks', words[r], nodes[r].output) {
      assert IsTerminal(toks, words[r], nodes[r].output);
      if nodes[r].output.Output? {
        assert toks'[..nodes[r].output.pattern] == toks[..nodes[r].output.pattern];
      }
    }
  }

  ghost predicate InAlphabet(words: seq<Word>, stride: nat) {
    forall w, j :: w in words && 0 <= j < |w| ==> w[j] < stride
  }

  /** A trie of the patterns `toks` over the tokens below `stride`, not yet linked. */
  ghost predicate TrieOf(nodes: seq<Node>, words: seq<Word>, ix: map<Word, nat>, toks: seq<Word>, stride: nat) {
    && IsTrie(nodes, words, ix) && Terminals(nodes, words, toks) && Spelled(toks, ix) && InAlphabet(words, stride)
  }

  lemma {:induction false} GrowTrieOf(nodes: seq<Node>, words: seq<Word>, ix: map<Word, nat>, toks: seq<Word>, stride: nat, s: nat, t: nat)
    requires TrieOf(nodes, words, ix, toks, stride) && s < |nodes| && 0 < t < stride && t !in nodes[s].edges
    ensures TrieOf(Grow(nodes, s, t), words + [words[s] + [t]], ix[words[s] + [t] := |words|], toks, stride)
  {
    GrowTrie(nodes, words, ix, s, t);
    GrowTerminals(nodes, words, ix, toks, s, t);
    assert words[s] in words;
  }

  lemma {:induction false} AlphabetGrows(words: seq<Word>, stride: nat, stride': nat)
    requires InAlphabet(words, stride) && stride <= stride'
    ensures InAlphabet(words, stride')
  {
  }

  // ----- nothing but patterns is in the trie

  ghost predicate Begins(toks: seq<Word>, v: Word) {
    exists i :: 0 <= i < |toks| && v <= toks[i]
  }

  /** Only beginnings of patterns, and of the word being spelled, are in the trie. */
  ghost predicate OnlyBeginnings(ix: map<Word, nat>, toks: seq<Word>, w: Word) {
    forall v :: v in ix ==> v <= w || Begins(toks, v)
  }

  lemma {:induction false} WordGrows(ix: map<Word, nat>, ix': map<Word, nat>, toks: seq<Word>, w: Word, token: nat)
    requires OnlyBeginnings(ix, toks, w) && forall v :: v in ix' ==> v in ix || v == w + [token]
    ensures OnlyBeginnings(ix', toks, w + [token])
  {
  }

  lemma {:induction false} WordDone(ix: map<Word, nat>, toks: seq<Word>, w: Word)
    requires OnlyBeginnings(ix, toks, w)
    ensures OnlyBeginnings(ix, toks + [w], [])
  {
    forall v | v in ix ensures Begins(toks + [w], v) {
      if v <= w {
        assert (toks + [w])[|toks|] == w;
      } else {
        var i :| 0 <= i < |toks| && v <= toks[i];
        assert (toks + [w])[i] == toks[i];
      }
    }
  }
}
