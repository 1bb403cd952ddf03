/** The breadth-first order in which failure links are computed. A node is linked
    when it is queued, and every node no deeper than the one being expanded has
    been queued, so the links a failure walk needs are always there. */
module Links {
  import opened Automaton
  import opened Spec
  import Fold

  ghost predicate Distinct(q: seq<nat>) {
    forall i, j :: 0 <= i < j < |q| ==> q[i] != q[j]
  }

  lemma {:induction false} DistinctBound(q: seq<nat>, n: nat)
    requires Distinct(q) && forall i :: 0 <= i < |q| ==> q[i] < n
    ensures |q| <= n
  {
    if |q| > n {
      assert Elements(q) <= Below(n);
      ElementsCard(q);
      Fold.SubsetSize(Elements(q), Below(n));
      assert false;
    }
  }

  ghost function Elements(q: seq<nat>): set<nat> {
    set i | i in q
  }

  lemma {:induction false} ElementsCard(q: seq<nat>)
    requires Distinct(q)
    ensures |Elements(q)| == |q|
  {
    if |q| > 0 {
      var r := q[..|q| - 1];
      ElementsCard(r);
      assert Elements(q) == Elements(r) + {q[|q| - 1]};
    }
  }

  ghost function Below(n: nat): (s: set<nat>)
    ensures |s| == n && forall i: nat :: i in s <==> i < n
  {
    if n == 0 then {} else Below(n - 1) + {n - 1}
  }

  function Depth(words: seq<Word>, n: nat): nat
    requires n < |words|
  {
    |words[n]|
  }

  ghost function Parent(words: seq<Word>, ix: map<Word, nat>, n: nat): (p: nat)
    requires WordIndex(words, ix) && 0 < n < |words|
    ensures p < |words| && Depth(words, p) + 1 == Depth(words, n)
    ensures words[p] + [Last(words[n])] == words[n]
  {
    RootWord(words, ix);
    ix[Front(words[n])]
  }

  /** A word one token longer than that of `s` is the word of a child of `s`. */
  lemma {:induction false} ChildOf(words: seq<Word>, ix: map<Word, nat>, n: nat, s: nat, t: nat)
    requires WordIndex(words, ix) && 0 < n < |words| && s < |words| && words[n] == words[s] + [t]
    ensures words[n] != [] && Parent(words, ix, n) == s && Last(words[n]) == t
  {
    assert Front(words[n]) == words[s];
  }

  /** Nodes with the same parent and the same last token are the same. */
  lemma {:induction false} SameChild(words: seq<Word>, ix: map<Word, nat>, n: nat, m: nat)
    requires WordIndex(words, ix) && 0 < n < |words| && 0 < m < |words| && words[n] != [] && words[m] != []
    requires Parent(words, ix, n) == Parent(words, ix, m) && Last(words[n]) == Last(words[m])
    ensures n == m
  {
    assert words[n] == words[m];
  }

  lemma {:induction false} Rooted(words: seq<Word>, ix: map<Word, nat>, n: nat)
    requires WordIndex(words, ix) && 0 < n < |words|
    ensures words[n] != []
  {
    RootWord(words, ix);
  }

  /** Non-root nodes, each once, by depth, none more than one level below the head. */
  ghost predicate InOrder(words: seq<Word>, queue: seq<nat>, head: nat) {
    && Distinct(queue)
    && (forall i :: 0 <= i < |queue| ==> 0 < queue[i] < |words|)
    && (forall i, j :: 0 <= i < j < |queue| ==> Depth(words, queue[i]) <= Depth(words, queue[j]))
    && (forall i :: head < |queue| && 0 <= i < |queue| ==> Depth(words, queue[i]) <= Depth(words, queue[head]) + 1)
  }

  /** The queue holds exactly the children of the root and of the first `head` nodes
      of the queue, and those of the node `state` over tokens outside `pending`. */
  ghost predicate Expanded(words: seq<Word>, ix: map<Word, nat>, queue: seq<nat>, head: nat, state: nat, pending: set<nat>)
    requires WordIndex(words, ix)
  {
    && head <= |queue|
    && forall n :: 0 < n < |words| ==>
         var p := Parent(words, ix, n);
         n in queue <==> p == 0 || p in queue[..head] || (p == state && Last(words[n]) !in pending)
  }

  /** Everything no deeper than the node being expanded is in the queue. */
  lemma {:induction false} ShallowQueued(words: seq<Word>, ix: map<Word, nat>, queue: seq<nat>, head: nat,
                                         state: nat, pending: set<nat>, n: nat)
    requires WordIndex(words, ix) && InOrder(words, queue, head)
    requires Expanded(words, ix, queue, head, state, pending)
    requires 0 < n < |words| && (head < |queue| ==> Depth(words, n) <= Depth(words, queue[head]))
    ensures n in queue
    decreases Depth(words, n)
  {
    var p := Parent(words, ix, n);
    if p != 0 {
      ShallowQueued(words, ix, queue, head, state, pending, p);
      var i :| 0 <= i < |queue| && queue[i] == p;
      assert i < head;
      assert queue[..head][i] == p;
    }
  }

  /** A child about to be queued is not there yet. */
  lemma {:induction false} ChildIsNew(words: seq<Word>, ix: map<Word, nat>, queue: seq<nat>, head: nat, pending: set<nat>, child: nat)
    requires WordIndex(words, ix) && InOrder(words, queue, head) && head < |queue|
    requires Expanded(words, ix, queue, head, queue[head], pending)
    requires 0 < child < |words| && Parent(words, ix, child) == queue[head]
    requires Last(words[child]) in pending
    ensures child !in queue
  {
  }

  /** Queueing a child keeps the order. */
  lemma {:induction false} Enqueue(words: seq<Word>, ix: map<Word, nat>, queue: seq<nat>, head: nat,
                                   pending: set<nat>, child: nat, t: nat)
    requires WordIndex(words, ix) && InOrder(words, queue, head) && head < |queue|
    requires Expanded(words, ix, queue, head, queue[head], pending)
    requires 0 < child < |words| && words[child] == words[queue[head]] + [t] && t in pending
    ensures child !in queue
    ensures InOrder(words, queue + [child], head)
    ensures Expanded(words, ix, queue + [child], head, queue[head], pending - {t})
  {
    hide Expanded, WordIndex;
    ChildOf(words, ix, child, queue[head], t);
    ChildIsNew(words, ix, queue, head, pending, child);
    EnqueueExpanded(words, ix, queue, head, pending, child, t);
  }

  lemma {:induction false} EnqueueExpanded(words: seq<Word>, ix: map<Word, nat>, queue: seq<nat>, head: nat,
                                           pending: set<nat>, child: nat, t: nat)
    requires WordIndex(words, ix) && head < |queue| && queue[head] < |words|
    requires Expanded(words, ix, queue, head, queue[head], pending)
    requires 0 < child < |words| && words[child] == words[queue[head]] + [t]
    ensures Expanded(words, ix, queue + [child], head, queue[head], pending - {t})
  {
    hide WordIndex, Parent, Last;
    var queue' := queue + [child];
    assert queue'[..head] == queue[..head];
    ChildOf(words, ix, child, queue[head], t);
    forall n | 0 < n < |words|
      ensures var p := Parent(words, ix, n);
              words[n] != [] && (n in queue' <==> p == 0 || p in queue'[..head] || (p == queue[head] && Last(words[n]) !in pending - {t}))
    {
      Rooted(words, ix, n);
      if Parent(words, ix, n) == queue[head] && Last(words[n]) == t {
        SameChild(words, ix, n, child);
      }
    }
  }

  /** The root's children are queued first. */
  ghost predicate RootExpanded(words: seq<Word>, ix: map<Word, nat>, queue: seq<nat>, pending: set<nat>)
    requires WordIndex(words, ix)
  {
    && Distinct(queue)
    && (forall i :: 0 <= i < |queue| ==> 0 < queue[i] < |words| && Depth(words, queue[i]) == 1)
    && forall n :: 0 < n < |words| ==>
         (n in queue <==> Parent(words, ix, n) == 0 && Last(words[n]) !in pending)
  }

  lemma {:induction false} EnqueueRoot(words: seq<Word>, ix: map<Word, nat>, queue: seq<nat>, pending: set<nat>, child: nat, t: nat)
    requires WordIndex(words, ix) && RootExpanded(words, ix, queue, pending)
    requires 0 < child < |words| && words[child] == [t] && t in pending
    ensures child !in queue
    ensures RootExpanded(words, ix, queue + [child], pending - {t})
  {
    hide WordIndex, Parent, Last;
    RootWord(words, ix);
    assert words[child] == words[0] + [t];
    ChildOf(words, ix, child, 0, t);
    forall n | 0 < n < |words| && Parent(words, ix, n) == 0 ensures words[n] != [] && (Last(words[n]) == t ==> n == child) {
      Rooted(words, ix, n);
      if Last(words[n]) == t {
        SameChild(words, ix, n, child);
      }
    }
  }

  /** Before a node is expanded none of its children is queued. */
  lemma {:induction false} StartHead(nodes: seq<Node>, words: seq<Word>, ix: map<Word, nat>, queue: seq<nat>, head: nat)
    requires IsTrie(nodes, words, ix) && head < |queue| && queue[head] < |words|
    requires Expanded(words, ix, queue, head, 0, {})
    ensures Expanded(words, ix, queue, head, queue[head], nodes[queue[head]].edges.Keys)
  {
    var state := queue[head];
    forall n | 0 < n < |words| && Parent(words, ix, n) == state ensures Last(words[n]) in nodes[state].edges {
      assert words[state] + [Last(words[n])] == words[n];
    }
  }

  /** Once a node's children are all queued, the next node of the queue can be expanded. */
  lemma {:induction false} FinishHead(words: seq<Word>, ix: map<Word, nat>, queue: seq<nat>, head: nat)
    requires WordIndex(words, ix) && InOrder(words, queue, head) && head < |queue|
    requires Expanded(words, ix, queue, head, queue[head], {})
    ensures InOrder(words, queue, head + 1)
    ensures Expanded(words, ix, queue, head + 1, 0, {})
  {
    assert queue[..head + 1] == queue[..head] + [queue[head]];
  }

  lemma {:induction false} FinishRoot(words: seq<Word>, ix: map<Word, nat>, queue: seq<nat>)
    requires WordIndex(words, ix) && RootExpanded(words, ix, queue, {})
    ensures InOrder(words, queue, 0) && Expanded(words, ix, queue, 0, 0, {})
  {
  }

  // ----- linking one node

  /** The node's failure is the longest proper suffix in the trie, and its output the
      longest pattern that ends there. */
  ghost predicate NodeLinked(nodes: seq<Node>, words: seq<Word>, ix: map<Word, nat>, toks: seq<Word>, s: nat)
    requires WordIndex(words, ix) && s < |nodes| && |nodes| == |words|
  {
    IsFailure(words, ix, s, nodes[s].failure) && IsOutput(toks, words[s], nodes[s].output)
  }

  ghost predicate NodeUnlinked(nodes: seq<Node>, words: seq<Word>, toks: seq<Word>, s: nat)
    requires s < |nodes| && |nodes| == |words|
  {
    nodes[s].failure == 0 && IsTerminal(toks, words[s], nodes[s].output)
  }

  /** Exactly the root and the queued nodes are linked so far. */
  ghost predicate LinkedUpTo(nodes: seq<Node>, words: seq<Word>, ix: map<Word, nat>, toks: seq<Word>, queue: seq<nat>) {
    && IsTrie(nodes, words, ix) && Spelled(toks, ix)
    && forall s :: 0 <= s < |nodes| ==>
         if s == 0 || s in queue then NodeLinked(nodes, words, ix, toks, s) else NodeUnlinked(nodes, words, toks, s)
  }

  lemma {:induction false} SameEdges(nodes: seq<Node>, nodes': seq<Node>, words: seq<Word>, ix: map<Word, nat>)
    requires IsTrie(nodes, words, ix) && |nodes'| == |nodes|
    requires forall s :: 0 <= s < |nodes| ==> nodes'[s].edges == nodes[s].edges
    ensures IsTrie(nodes', words, ix)
  {
  }

  function Link(nodes: seq<Node>, child: nat, failure: nat): seq<Node>
    requires child < |nodes| && failure < |nodes|
  {
    nodes[child := nodes[child].(failure := failure, output := Prefer(nodes[failure].output, nodes[child].output))]
  }

  /** Linking a child whose failure node is linked. */
  lemma {:induction false} LinkOne(nodes: seq<Node>, words: seq<Word>, ix: map<Word, nat>, toks: seq<Word>, queue: seq<nat>, child: nat, failure: nat)
    requires LinkedUpTo(nodes, words, ix, toks, queue)
    requires 0 < child < |nodes| && child !in queue
    requires failure < |nodes| && (failure == 0 || failure in queue) && IsFailure(words, ix, child, failure)
    ensures LinkedUpTo(Link(nodes, child, failure), words, ix, toks, queue + [child])
  {
    hide WordIndex, IsOutput, IsTerminal, IsFailure, Prefer;
    var nodes' := Link(nodes, child, failure);
    SameEdges(nodes, nodes', words, ix);
    ChildLinked(nodes, words, ix, toks, queue, child, failure);
    forall s | 0 <= s < |nodes|
      ensures if s == 0 || s in queue + [child] then NodeLinked(nodes', words, ix, toks, s) else NodeUnlinked(nodes', words, toks, s)
    {
      if s != child {
        assert nodes'[s] == nodes[s];
        assert s in queue + [child] <==> s in queue;
        assert NodeLinked(nodes', words, ix, toks, s) <==> NodeLinked(nodes, words, ix, toks, s);
        assert NodeUnlinked(nodes', words, toks, s) <==> NodeUnlinked(nodes, words, toks, s);
      }
    }
  }

  lemma {:induction false} ChildLinked(nodes: seq<Node>, words: seq<Word>, ix: map<Word, nat>, toks: seq<Word>, queue: seq<nat>, child: nat, failure: nat)
    requires LinkedUpTo(nodes, words, ix, toks, queue)
    requires 0 < child < |nodes| && child !in queue
    requires failure < |nodes| && (failure == 0 || failure in queue) && IsFailure(words, ix, child, failure)
    ensures NodeLinked(Link(nodes, child, failure), words, ix, toks, child)
  {
    RootWord(words, ix);
    assert NodeLinked(nodes, words, ix, toks, failure);
    assert NodeUnlinked(nodes, words, toks, child);
    assert words[child] in ix;
    Propagate(toks, ix, words[child], nodes[child].output, nodes[failure].output);
  }

  /** The root and its children are linked by default: their failure is the root. */
  lemma {:induction false} RootLinked(nodes: seq<Node>, words: seq<Word>, ix: map<Word, nat>, toks: seq<Word>, queue: seq<nat>)
    requires IsTrie(nodes, words, ix) && Spelled(toks, ix) && RootExpanded(words, ix, queue, {})
    requires forall s :: 0 <= s < |nodes| ==> NodeUnlinked(nodes, words, toks, s)
    ensures LinkedUpTo(nodes, words, ix, toks, queue)
  {
    RootWord(words, ix);
    assert NodeUnlinked(nodes, words, toks, 0);
    assert NodeLinked(nodes, words, ix, toks, 0);
    forall s | 0 < s < |nodes| && s in queue ensures NodeLinked(nodes, words, ix, toks, s) {
      assert NodeUnlinked(nodes, words, toks, s);
      assert Depth(words, s) == 1;
      assert words[s] in ix && words[s][1..] == [];
      Propagate(toks, ix, words[s], nodes[s].output, NoOutput);
    }
  }

  lemma {:induction false} RootPending(nodes: seq<Node>, words: seq<Word>, ix: map<Word, nat>)
    requires IsTrie(nodes, words, ix) && |nodes| > 0
    ensures RootExpanded(words, ix, [], nodes[0].edges.Keys)
  {
    RootWord(words, ix);
    forall n | 0 < n < |words| && Parent(words, ix, n) == 0 ensures Last(words[n]) in nodes[0].edges {
      assert words[0] + [Last(words[n])] == words[n];
    }
  }

  lemma {:induction false} ChildFailure(words: seq<Word>, ix: map<Word, nat>, state: nat, link: nat, token: nat, child: nat, failure: nat)
    requires WordIndex(words, ix) && 0 < state < |words| && child < |words|
    requires words[child] == words[state] + [token]
    requires IsFailure(words, ix, state, link) && failure == Target(words, ix, link, token)
    ensures IsFailure(words, ix, child, failure) && |words[failure]| <= |words[state]|
  {
    RootWord(words, ix);
    assert words[child][1..] == words[state][1..] + [token];
    LongestStep(words, ix, words[state][1..], token);
  }

  lemma {:induction false} EdgeChild(nodes: seq<Node>, words: seq<Word>, ix: map<Word, nat>, state: nat, token: nat)
    requires IsTrie(nodes, words, ix) && state < |nodes| && token in nodes[state].edges
    ensures var child := nodes[state].edges[token];
            0 < child < |nodes| && words[child] == words[state] + [token]
  {
    assert words[state] + [token] in ix;
  }

  /** Every node whose word is no longer than that of the head is linked. */
  ghost predicate ShallowIn(words: seq<Word>, queue: seq<nat>, state: nat)
    requires state < |words|
  {
    forall s :: 0 < s < |words| && |words[s]| <= |words[state]| ==> s in queue
  }

  lemma {:induction false} AllShallow(words: seq<Word>, ix: map<Word, nat>, queue: seq<nat>, head: nat, pending: set<nat>)
    requires WordIndex(words, ix) && InOrder(words, queue, head) && head < |queue|
    requires Expanded(words, ix, queue, head, queue[head], pending)
    ensures ShallowIn(words, queue, queue[head])
  {
    forall s | 0 < s < |words| && |words[s]| <= |words[queue[head]]| ensures s in queue {
      ShallowQueued(words, ix, queue, head, queue[head], pending, s);
    }
  }

  /** Every node is linked. */
  ghost predicate AllLinked(nodes: seq<Node>, words: seq<Word>, ix: map<Word, nat>, toks: seq<Word>) {
    && IsTrie(nodes, words, ix)
    && forall s :: 0 <= s < |nodes| ==> NodeLinked(nodes, words, ix, toks, s)
  }

  lemma {:induction false} LinkedAll(nodes: seq<Node>, words: seq<Word>, ix: map<Word, nat>, toks: seq<Word>, queue: seq<nat>)
    requires LinkedUpTo(nodes, words, ix, toks, queue)
    requires forall s :: 0 < s < |words| ==> s in queue
    ensures AllLinked(nodes, words, ix, toks)
  {
    hide WordIndex, IsOutput, IsTerminal, IsFailure;
    forall s | 0 <= s < |nodes| ensures NodeLinked(nodes, words, ix, toks, s) {
      assert s == 0 || s in queue;
    }
  }

  lemma {:induction false} AllQueued(words: seq<Word>, ix: map<Word, nat>, queue: seq<nat>)
    requires WordIndex(words, ix) && InOrder(words, queue, |queue|)
    requires Expanded(words, ix, queue, |queue|, 0, {})
    ensures forall s :: 0 < s < |words| ==> s in queue
  {
    forall s | 0 < s < |words| ensures s in queue {
      ShallowQueued(words, ix, queue, |queue|, 0, {}, s);
    }
  }
}
