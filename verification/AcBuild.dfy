/** Construction of the automaton: pattern insertion, then the failure-link pass. */
module AcBuild {
  import opened Text
  import opened AhoCorasick
  import opened Collections

  const EMPTY_NODE := AcNode([], 0, -1)

  // ----- insertion ------------------------------------------------------

  /** Before the failure pass every link points at the root and every output is the
      node's own terminal mark among the patterns inserted so far. */
  ghost predicate Inserted(nodes: seq<AcNode>, labels: seq<string>, pats: seq<string>) {
    && Trie(nodes, labels)
    && AllSpelled(pats, labels)
    && (forall n :: 0 <= n < |nodes| ==> nodes[n].fail == 0 && Terminal(pats, labels[n], nodes[n].patternIdx))
  }

  /** Hanging a fresh leaf under `cur` keeps the trie. */
  lemma LeafKeepsTrie(nodes: seq<AcNode>, labels: seq<string>, cur: nat, b: char, nodes': seq<AcNode>)
    requires Trie(nodes, labels) && cur < |nodes|
    requires forall j :: 0 <= j < |nodes[cur].edges| ==> nodes[cur].edges[j].byte != b
    requires nodes' == nodes[cur := nodes[cur].(edges := nodes[cur].edges + [Edge(b, |nodes|)])] + [EMPTY_NODE]
    ensures Trie(nodes', labels + [labels[cur] + [b]])
  {
    var labels' := labels + [labels[cur] + [b]];
    NoEdgeNoLabel(nodes, labels, cur, b);
    forall n, j | 0 <= n < |nodes'| && 0 <= j < |nodes'[n].edges| ensures EdgeOk(nodes', labels', n, j) {
      if !(n == cur && j == |nodes[cur].edges|) {
        assert EdgeOk(nodes, labels, n, j);
      }
    }
    forall n | 0 <= n < |nodes'| ensures Deterministic(nodes'[n]) {
      if n < |nodes| { assert Deterministic(nodes[n]); }
    }
    forall x | 0 < x < |nodes'| ensures HasParent(nodes', x) {
      if x < |nodes| {
        var n, j := ParentOf(nodes, labels, x);
        assert nodes'[n].edges[j].target == x;
        assert IsChild(nodes', n, x);
      } else {
        assert nodes'[cur].edges[|nodes[cur].edges|].target == x;
        assert IsChild(nodes', cur, x);
      }
    }
    forall m, n | 0 <= m < |labels'| && 0 <= n < |labels'| && SameLabel(labels', m, n) ensures m == n {
      if m < |labels| && n < |labels| { assert SameLabel(labels, m, n); }
    }
  }

  /** Walks one lowercased pattern into the trie, adding the missing nodes. */
  method WalkIn(nodes: seq<AcNode>, pat: string, ghost labels: seq<string>, ghost pats: seq<string>)
      returns (nodes': seq<AcNode>, cur: nat, ghost labels': seq<string>)
    requires Inserted(nodes, labels, pats)
    requires forall i :: 0 <= i < |pats| && pats[i] != [] ==> Spelled(labels, pats[i])
    ensures Inserted(nodes', labels', pats)
    ensures cur < |nodes'| && labels'[cur] == pat
  {
    nodes', cur, labels' := nodes, 0, labels;
    for k := 0 to |pat|
      invariant Inserted(nodes', labels', pats)
      invariant cur < |nodes'| && labels'[cur] == pat[..k]
    {
      var b := pat[k];
      assert pat[..k + 1] == pat[..k] + [b];
      var next := FindEdge(nodes'[cur], b);
      if next < 0 {
        ghost var before, was := nodes', labels';
        next := |nodes'|;
        nodes' := nodes' + [EMPTY_NODE];
        nodes' := nodes'[cur := nodes'[cur].(edges := nodes'[cur].edges + [Edge(b, next)])];
        labels' := labels' + [labels'[cur] + [b]];
        assert nodes' == before[cur := before[cur].(edges := before[cur].edges + [Edge(b, |before|)])] + [EMPTY_NODE];
        LeafKeepsTrie(before, was, cur, b, nodes');
        LeafKeepsMarks(before, was, pats, cur, b, nodes', labels');
      } else {
        ghost var j :| 0 <= j < |nodes'[cur].edges| && nodes'[cur].edges[j] == Edge(b, next);
        assert EdgeOk(nodes', labels', cur, j);
      }
      cur := next;
    }
    assert pat[..|pat|] == pat;
  }

  /** A fresh leaf spells no pattern inserted so far, so its mark of -1 is right. */
  lemma LeafKeepsMarks(nodes: seq<AcNode>, labels: seq<string>, pats: seq<string>, cur: nat, b: char,
                       nodes': seq<AcNode>, labels': seq<string>)
    requires Inserted(nodes, labels, pats) && cur < |nodes|
    requires nodes' == nodes[cur := nodes[cur].(edges := nodes[cur].edges + [Edge(b, |nodes|)])] + [EMPTY_NODE]
    requires labels' == labels + [labels[cur] + [b]] && Trie(nodes', labels')
    ensures Inserted(nodes', labels', pats)
  {
    forall i | 0 <= i < |pats| && pats[i] != [] ensures Spelled(labels', pats[i]) && pats[i] != labels[cur] + [b] {
      assert Spelled(labels, pats[i]);
      var n :| 0 <= n < |labels| && labels[n] == pats[i];
      assert labels'[n] == pats[i];
      assert !SameLabel(labels', n, |labels|);
    }
    forall n | 0 <= n < |nodes'| ensures nodes'[n].fail == 0 && Terminal(pats, labels'[n], nodes'[n].patternIdx) {
      if n < |nodes| {
        assert Terminal(pats, labels[n], nodes[n].patternIdx);
      }
    }
  }

  /** Inserts every pattern; empty ones are skipped, the first of equal patterns keeps the mark. */
  method InsertAll(pats: seq<string>) returns (nodes: seq<AcNode>, ghost labels: seq<string>)
    ensures Inserted(nodes, labels, pats)
  {
    nodes, labels := [EMPTY_NODE], [[]];
    assert pats[..0] == [];
    for i := 0 to |pats|
      invariant Inserted(nodes, labels, pats[..i])
    {
      ghost var before := pats[..i];
      assert pats[..i + 1] == before + [pats[i]];
      var cur: nat := 0;
      if pats[i] != [] {
        nodes, cur, labels := WalkIn(nodes, pats[i], labels, before);
        ghost var walked := nodes;
        if nodes[cur].patternIdx < 0 {
          nodes := nodes[cur := nodes[cur].(patternIdx := i)];
        }
        TrieFrame(walked, nodes, labels);
        MarkKeeps(walked, labels, before, pats[i], cur, nodes);
      }
    }
    assert pats[..|pats|] == pats;
  }

  lemma MarkKeeps(nodes: seq<AcNode>, labels: seq<string>, pats: seq<string>, pat: string, cur: nat, nodes': seq<AcNode>)
    requires Inserted(nodes, labels, pats) && cur < |nodes| && labels[cur] == pat && pat != []
    requires nodes' == if nodes[cur].patternIdx < 0 then nodes[cur := nodes[cur].(patternIdx := |pats|)] else nodes
    requires Trie(nodes', labels)
    ensures Inserted(nodes', labels, pats + [pat])
  {
    var pats' := pats + [pat];
    forall i | 0 <= i < |pats'| && pats'[i] != [] ensures Spelled(labels, pats'[i]) {
      if i < |pats| { assert Spelled(labels, pats[i]); }
    }
    forall n | 0 <= n < |nodes'| ensures nodes'[n].fail == 0 && Terminal(pats', labels[n], nodes'[n].patternIdx) {
      assert Terminal(pats, labels[n], nodes[n].patternIdx);
      assert n != cur ==> !SameLabel(labels, n, cur);
    }
  }

  // ----- failure links --------------------------------------------------

  /** What the failure pass knows about a node it has not reached yet. */
  ghost predicate Unlinked(nodes: seq<AcNode>, labels: seq<string>, pats: seq<string>, x: nat)
    requires |labels| == |nodes| && x < |nodes|
  {
    Terminal(pats, labels[x], nodes[x].patternIdx)
  }

  /** All nodes no deeper than `d` carry their final link and output. */
  ghost predicate LinkedUpTo(nodes: seq<AcNode>, labels: seq<string>, pats: seq<string>, d: nat)
    requires |labels| == |nodes|
  {
    forall x {:trigger Linked(nodes, labels, pats, x)} ::
      0 < x < |nodes| && |labels[x]| <= d ==> Linked(nodes, labels, pats, x)
  }

  /** The failure target of the child behind edge `j` of `u`: the longest proper
      suffix of its label that the trie spells. The walk can never come back to the
      child itself, so the `nextViaF == v` test never decides anything. */
  method FailTarget(nodes: seq<AcNode>, u: nat, j: nat, ghost labels: seq<string>, ghost pats: seq<string>)
      returns (target: nat)
    requires Trie(nodes, labels) && 0 < u < |nodes| && j < |nodes[u].edges|
    requires EdgeOk(nodes, labels, u, j) && LinkedUpTo(nodes, labels, pats, |labels[u]|)
    ensures var v := nodes[u].edges[j].target;
      labels[v] != [] && IsLongest(labels, labels[v][1..], target) && |labels[target]| < |labels[v]|
  {
    var b := nodes[u].edges[j].byte;
    var v := nodes[u].edges[j].target;
    NonRootLabel(nodes, labels, u);
    ghost var w := labels[u][1..];
    assert labels[v][1..] == w + [b];
    ghost var steps;
    var f;
    forall x | 0 < x < |nodes| && |labels[x]| <= |labels[u]| ensures Linked(nodes, labels, pats, x) {}
    f, steps := FollowFailures(nodes, b, nodes[u].fail, labels, w);
    var nextViaF := FindEdge(nodes[f], b);
    SuccessorIsLongest(nodes, labels, w, b, f, nextViaF);
    assert nextViaF != v;
    if nextViaF < 0 || nextViaF == v {
      target := 0;
    } else {
      target := nextViaF;
    }
  }

  /** The body of the inner loop: link the child behind edge `j` of `u`. */
  method LinkChild(nodes: seq<AcNode>, u: nat, j: nat, ghost labels: seq<string>, ghost pats: seq<string>)
      returns (nodes': seq<AcNode>, v: nat)
    requires Trie(nodes, labels) && RootOk(nodes) && AllSpelled(pats, labels)
    requires 0 < u < |nodes| && j < |nodes[u].edges|
    requires LinkedUpTo(nodes, labels, pats, |labels[u]|)
    requires EdgeOk(nodes, labels, u, j) && Unlinked(nodes, labels, pats, nodes[u].edges[j].target)
    ensures v == nodes[u].edges[j].target && |nodes'| == |nodes|
    ensures nodes' == nodes[v := AcNode(nodes[v].edges, nodes'[v].fail, nodes'[v].patternIdx)]
    ensures Linked(nodes', labels, pats, v)
  {
    v := nodes[u].edges[j].target;
    var target := FailTarget(nodes, u, j, labels, pats);
    ghost var own, inherited := nodes[v].patternIdx, nodes[target].patternIdx;
    assert BestEnding(pats, labels[v], if own < 0 then inherited else own) by {
      OutputAt(nodes, labels, pats, target, |labels[u]|);
      OutputPropagates(labels, pats, labels[v], target, own, inherited);
    }
    assert target != v && (inherited == -1 || inherited >= 0) && own >= -1 by {
      OutputAt(nodes, labels, pats, target, |labels[u]|);
    }
    nodes' := nodes[v := nodes[v].(fail := target)];
    if nodes'[v].patternIdx < 0 && nodes'[target].patternIdx >= 0 {
      nodes' := nodes'[v := nodes'[v].(patternIdx := nodes'[target].patternIdx)];
    }
    assert nodes'[v].patternIdx == if own < 0 then inherited else own;
  }

  lemma OutputAt(nodes: seq<AcNode>, labels: seq<string>, pats: seq<string>, t: nat, d: nat)
    requires Trie(nodes, labels) && RootOk(nodes) && t < |nodes| && |labels[t]| <= d
    requires LinkedUpTo(nodes, labels, pats, d)
    ensures BestEnding(pats, labels[t], nodes[t].patternIdx)
  {
    if t != 0 { assert Linked(nodes, labels, pats, t); }
  }

  // ----- the breadth-first pass -----------------------------------------

  ghost predicate Covered(nodes: seq<AcNode>, q: seq<nat>, n: nat)
    requires n < |nodes|
  {
    forall j :: 0 <= j < |nodes[n].edges| ==> nodes[n].edges[j].target in q
  }

  /** `x` is a child of a node already dequeued (the root counts as dequeued). */
  ghost predicate ChildOfDone(nodes: seq<AcNode>, done: set<nat>, x: nat) {
    exists n :: n in done && n < |nodes| && IsChild(nodes, n, x)
  }

  /** `x` is a child of a dequeued node, or hangs behind one of the first `i` edges of `u`. */
  ghost predicate FromVisit(nodes: seq<AcNode>, done: set<nat>, u: nat, i: nat, x: nat)
    requires u < |nodes| && i <= |nodes[u].edges|
  {
    ChildOfDone(nodes, done, x) || exists j :: 0 <= j < i && nodes[u].edges[j].target == x
  }

  ghost predicate ByDepth(labels: seq<string>, q: seq<nat>)
    requires forall i :: 0 <= i < |q| ==> q[i] < |labels|
  {
    forall i, j :: 0 <= i < j < |q| ==> |labels[q[i]]| <= |labels[q[j]]|
  }

  ghost predicate NonRoots(nodes: seq<AcNode>, q: seq<nat>) {
    forall i :: 0 <= i < |q| ==> 0 < q[i] < |nodes|
  }

  /** State of the pass: exactly the enqueued nodes are linked. */
  ghost predicate Pass(nodes: seq<AcNode>, labels: seq<string>, pats: seq<string>, q: seq<nat>) {
    && Trie(nodes, labels) && RootOk(nodes) && AllSpelled(pats, labels)
    && NonRoots(nodes, q) && Distinct(q) && ByDepth(labels, q)
    && (forall x {:trigger Linked(nodes, labels, pats, x)} :: x in q ==> Linked(nodes, labels, pats, x))
    && (forall x {:trigger Unlinked(nodes, labels, pats, x)} :: 0 < x < |nodes| && x !in q ==> Unlinked(nodes, labels, pats, x))
  }

  function NonRootIds(n: nat): (s: set<nat>)
    requires n >= 1
    ensures |s| == n - 1 && forall k :: k in s <==> 0 < k < n
  {
    if n == 1 then {} else NonRootIds(n - 1) + {n - 1}
  }

  /** Distinct non-root nodes never outnumber the non-root nodes: the queue cannot overflow. */
  lemma QueueFits(q: seq<nat>, n: nat)
    requires n >= 1 && Distinct(q) && forall i :: 0 <= i < |q| ==> 0 < q[i] < n
    ensures |q| < n
  {
    DistinctCount(q);
    SubsetSize(Elements(q), NonRootIds(n));
  }

  /** In a trie an edge is determined by the node it leads to. */
  lemma OneParent(nodes: seq<AcNode>, labels: seq<string>, m: nat, i: nat, n: nat, j: nat)
    requires Trie(nodes, labels)
    requires m < |nodes| && i < |nodes[m].edges| && n < |nodes| && j < |nodes[n].edges|
    requires nodes[m].edges[i].target == nodes[n].edges[j].target
    ensures m == n && i == j
  {
    assert EdgeOk(nodes, labels, m, i) && EdgeOk(nodes, labels, n, j);
    var v := nodes[m].edges[i].target;
    assert labels[m] == labels[v][..|labels[v]| - 1] == labels[n];
    assert SameLabel(labels, m, n);
    assert labels[v][|labels[v]| - 1] == nodes[m].edges[i].byte == nodes[n].edges[j].byte;
    assert Deterministic(nodes[m]);
  }

  /** The child behind the next edge of `u` has not been enqueued yet. */
  lemma ChildIsNew(nodes: seq<AcNode>, labels: seq<string>, q: seq<nat>, done: set<nat>, u: nat, i: nat)
    requires Trie(nodes, labels) && u < |nodes| && u !in done && i < |nodes[u].edges|
    requires forall x :: x in q ==> FromVisit(nodes, done, u, i, x)
    ensures nodes[u].edges[i].target !in q
  {
    forall x | x in q ensures x != nodes[u].edges[i].target {
      if ChildOfDone(nodes, done, x) {
        var n :| n in done && n < |nodes| && IsChild(nodes, n, x);
        var j :| 0 <= j < |nodes[n].edges| && nodes[n].edges[j].target == x;
        if x == nodes[u].edges[i].target { OneParent(nodes, labels, n, j, u, i); }
      } else {
        var j :| 0 <= j < i && nodes[u].edges[j].target == x;
        if x == nodes[u].edges[i].target { OneParent(nodes, labels, u, j, u, i); }
      }
    }
  }

  /** Linking one new node moves it from the unlinked to the linked side. */
  lemma PassExtends(nodes: seq<AcNode>, nodes': seq<AcNode>, labels: seq<string>, pats: seq<string>, q: seq<nat>, v: nat)
    requires Pass(nodes, labels, pats, q) && 0 < v < |nodes| && v !in q && |nodes'| == |nodes|
    requires nodes' == nodes[v := AcNode(nodes[v].edges, nodes'[v].fail, nodes'[v].patternIdx)]
    requires Linked(nodes', labels, pats, v)
    requires forall x :: x in q ==> |labels[x]| <= |labels[v]|
    ensures Pass(nodes', labels, pats, q + [v]) && SameEdges(nodes, nodes')
  {
    TrieFrame(nodes, nodes', labels);
    forall x | x in q + [v] ensures Linked(nodes', labels, pats, x) {
      if x != v { assert Linked(nodes, labels, pats, x); }
    }
    forall x | 0 < x < |nodes'| && x !in q + [v] ensures Unlinked(nodes', labels, pats, x) {
      assert Unlinked(nodes, labels, pats, x);
    }
  }

  lemma ShallowStaysLinked(nodes: seq<AcNode>, nodes': seq<AcNode>, labels: seq<string>, pats: seq<string>, d: nat, v: nat)
    requires |labels| == |nodes| == |nodes'| && v < |nodes| && |labels[v]| > d
    requires nodes' == nodes[v := nodes'[v]] && LinkedUpTo(nodes, labels, pats, d)
    ensures LinkedUpTo(nodes', labels, pats, d)
  {
    forall x | 0 < x < |nodes'| && |labels[x]| <= d ensures Linked(nodes', labels, pats, x) {
      assert Linked(nodes, labels, pats, x);
    }
  }

  /** Inner-loop state: the first `i` children of `u` are linked and enqueued. */
  ghost predicate Visiting(nodes: seq<AcNode>, labels: seq<string>, pats: seq<string>, q: seq<nat>,
                           done: set<nat>, u: nat, i: nat)
    requires u < |nodes| && i <= |nodes[u].edges|
  {
    && Pass(nodes, labels, pats, q)
    && LinkedUpTo(nodes, labels, pats, |labels[u]|)
    && (forall x :: x in q ==> |labels[x]| <= |labels[u]| + 1 && FromVisit(nodes, done, u, i, x))
    && (forall j :: 0 <= j < i ==> nodes[u].edges[j].target in q)
  }

  lemma VisitStep(nodes: seq<AcNode>, nodes': seq<AcNode>, labels: seq<string>, pats: seq<string>, q: seq<nat>,
                  done: set<nat>, u: nat, i: nat, v: nat)
    requires u < |nodes| && i < |nodes[u].edges| && |nodes'| == |nodes| && u !in done
    requires Visiting(nodes, labels, pats, q, done, u, i)
    requires v == nodes[u].edges[i].target && 0 < v < |nodes| && v !in q && |labels[v]| == |labels[u]| + 1
    requires nodes' == nodes[v := AcNode(nodes[v].edges, nodes'[v].fail, nodes'[v].patternIdx)]
    requires Linked(nodes', labels, pats, v)
    ensures SameEdges(nodes, nodes')
    ensures Visiting(nodes', labels, pats, q + [v], done, u, i + 1)
  {
    assert Pass(nodes', labels, pats, q + [v]) && SameEdges(nodes, nodes') by {
      PassExtends(nodes, nodes', labels, pats, q, v);
    }
    assert LinkedUpTo(nodes', labels, pats, |labels[u]|) by {
      ShallowStaysLinked(nodes, nodes', labels, pats, |labels[u]|, v);
    }
  }

  /** What the inner loop needs before linking the next child. */
  lemma VisitReady(nodes: seq<AcNode>, labels: seq<string>, pats: seq<string>, q: seq<nat>,
                   done: set<nat>, u: nat, i: nat)
    requires u < |nodes| && i < |nodes[u].edges| && u !in done && Visiting(nodes, labels, pats, q, done, u, i)
    ensures var v := nodes[u].edges[i].target;
      && EdgeOk(nodes, labels, u, i) && Unlinked(nodes, labels, pats, v) && |q| + 1 < |nodes|
      && v !in q && |labels[v]| == |labels[u]| + 1
  {
    var v := nodes[u].edges[i].target;
    assert EdgeOk(nodes, labels, u, i);
    ChildIsNew(nodes, labels, q, done, u, i);
    QueueFits(q + [v], |nodes|);
  }

  /** One dequeued node: link and enqueue each of its children. */
  method VisitNode(nodes: seq<AcNode>, u: nat, queue: array<nat>, qt: nat,
                   ghost labels: seq<string>, ghost pats: seq<string>, ghost done: set<nat>)
      returns (nodes': seq<AcNode>, qt': nat)
    requires queue.Length == |nodes| && qt <= queue.Length && 0 < u < |nodes| && u !in done
    requires Visiting(nodes, labels, pats, queue[..qt], done, u, 0)
    modifies queue
    ensures qt <= qt' <= queue.Length && queue[..qt] == old(queue[..qt])
    ensures SameEdges(nodes, nodes')
    ensures Visiting(nodes', labels, pats, queue[..qt'], done, u, |nodes[u].edges|)
  {
    nodes', qt' := nodes, qt;
    for i := 0 to |nodes[u].edges|
      invariant qt <= qt' <= queue.Length && queue[..qt] == old(queue[..qt])
      invariant SameEdges(nodes, nodes')
      invariant Visiting(nodes', labels, pats, queue[..qt'], done, u, i)
    {
      ghost var q, before := queue[..qt'], nodes';
      VisitReady(nodes', labels, pats, q, done, u, i);
      var v;
      nodes', v := LinkChild(nodes', u, i, labels, pats);
      VisitStep(before, nodes', labels, pats, q, done, u, i, v);
      queue[qt'] := v;
      qt' := qt' + 1;
      assert queue[..qt'] == q + [v];
    }
  }

  ghost predicate IsDone(q: seq<nat>, qh: nat, done: set<nat>)
    requires qh <= |q|
  {
    forall n {:trigger n in done} :: n in done <==> n == 0 || n in q[..qh]
  }

  /** Outer-loop state: the root and the first `qh` queue entries are dequeued. */
  ghost predicate Frontier(nodes: seq<AcNode>, labels: seq<string>, pats: seq<string>, q: seq<nat>,
                           qh: nat, done: set<nat>) {
    && Pass(nodes, labels, pats, q) && qh <= |q|
    && IsDone(q, qh, done)
    && (forall n :: n in done ==> n < |nodes| && Covered(nodes, q, n))
    && (forall x :: x in q ==> ChildOfDone(nodes, done, x))
    && (qh < |q| ==> forall x :: x in q ==> |labels[x]| <= |labels[q[qh]]| + 1)
  }

  /** Breadth-first order: everything no deeper than the queue head is already enqueued. */
  lemma {:induction false} ShallowEnqueued(nodes: seq<AcNode>, labels: seq<string>, pats: seq<string>, q: seq<nat>,
                                           qh: nat, done: set<nat>, x: nat)
    requires Frontier(nodes, labels, pats, q, qh, done) && 0 < x < |nodes|
    requires qh < |q| ==> |labels[x]| <= |labels[q[qh]]|
    ensures x in q
    decreases |labels[x]|
  {
    var n, j := ParentOf(nodes, labels, x);
    if n != 0 {
      ShallowEnqueued(nodes, labels, pats, q, qh, done, n);
      var i :| 0 <= i < |q| && q[i] == n;
      assert i < qh;
      assert q[..qh][i] == n;
    }
    assert n in done;
    assert Covered(nodes, q, n);
  }

  lemma HeadReady(nodes: seq<AcNode>, labels: seq<string>, pats: seq<string>, q: seq<nat>, qh: nat, done: set<nat>)
    requires Frontier(nodes, labels, pats, q, qh, done) && qh < |q|
    ensures 0 < q[qh] < |nodes| && q[qh] !in done
    ensures Visiting(nodes, labels, pats, q, done, q[qh], 0)
  {
    var u := q[qh];
    assert u in q;
    forall x | 0 < x < |nodes| && |labels[x]| <= |labels[u]|
      ensures Linked(nodes, labels, pats, x)
    {
      ShallowEnqueued(nodes, labels, pats, q, qh, done, x);
    }
    forall i | 0 <= i < |q[..qh]| ensures q[..qh][i] != u {
      assert q[i] != q[qh];
    }
  }

  lemma CoveredGrows(nodes: seq<AcNode>, nodes': seq<AcNode>, q: seq<nat>, q': seq<nat>, n: nat)
    requires SameEdges(nodes, nodes') && q <= q' && n < |nodes| && Covered(nodes, q, n)
    ensures Covered(nodes', q', n)
  {
    forall j | 0 <= j < |nodes'[n].edges| ensures nodes'[n].edges[j].target in q' {
      assert nodes[n].edges[j].target in q;
    }
  }

  lemma NextIsDeeper(labels: seq<string>, q: seq<nat>, i: nat)
    requires i + 1 < |q| && (forall k :: 0 <= k < |q| ==> q[k] < |labels|) && ByDepth(labels, q)
    ensures |labels[q[i]]| <= |labels[q[i + 1]]|
  {}

  lemma HeadDone(nodes: seq<AcNode>, nodes': seq<AcNode>, labels: seq<string>, pats: seq<string>,
                 q: seq<nat>, q': seq<nat>, qh: nat, done: set<nat>, u: nat)
    requires Frontier(nodes, labels, pats, q, qh, done) && qh < |q| && q <= q' && u == q[qh] < |nodes|
    requires SameEdges(nodes, nodes')
    requires Visiting(nodes', labels, pats, q', done, u, |nodes'[u].edges|)
    ensures Frontier(nodes', labels, pats, q', qh + 1, done + {u})
  {
    var done' := done + {u};
    forall n | n in done' ensures n < |nodes'| && Covered(nodes', q', n) {
      if n != u { CoveredGrows(nodes, nodes', q, q', n); }
    }
    forall x | x in q' ensures ChildOfDone(nodes', done', x) {}
    if qh + 1 < |q'| { NextIsDeeper(labels, q', qh); }
  }

  /** The order in which a breadth-first pass must reach the nodes. */
  ghost predicate BreadthFirst(nodes: seq<AcNode>, labels: seq<string>, order: seq<nat>)
    requires |labels| == |nodes|
  {
    && NonRoots(nodes, order) && Distinct(order) && ByDepth(labels, order)
    && forall x :: 0 < x < |nodes| ==> x in order
  }

  /** Depth-1 nodes fail to the root and seed the queue. */
  method SeedQueue(inserted: seq<AcNode>, queue: array<nat>, ghost labels: seq<string>, ghost pats: seq<string>)
      returns (nodes: seq<AcNode>, qt: nat)
    requires Inserted(inserted, labels, pats) && queue.Length == |inserted|
    modifies queue
    ensures SameEdges(inserted, nodes) && qt <= queue.Length
    ensures Frontier(nodes, labels, pats, queue[..qt], 0, {0})
  {
    nodes, qt := inserted, 0;
    assert queue[..0] == [];
    StartPass(nodes, labels, pats);
    for i := 0 to |inserted[0].edges|
      invariant qt <= queue.Length && SameEdges(inserted, nodes)
      invariant Visiting(nodes, labels, pats, queue[..qt], {}, 0, i)
    {
      ghost var q, before := queue[..qt], nodes;
      var child := nodes[0].edges[i].target;
      VisitReady(nodes, labels, pats, q, {}, 0, i);
      nodes := nodes[child := nodes[child].(fail := 0)];
      VisitStep(before, nodes, labels, pats, q, {}, 0, i, child);
      queue[qt] := child;
      qt := qt + 1;
      assert queue[..qt] == q + [child];
    }
  }

  /** The failure-link pass. `order` is the queue it leaves behind: every non-root node,
      once, shallow before deep. */
  method LinkFailures(inserted: seq<AcNode>, ghost labels: seq<string>, ghost pats: seq<string>)
      returns (nodes: seq<AcNode>, order: seq<nat>)
    requires Inserted(inserted, labels, pats)
    ensures SameEdges(inserted, nodes) && Automaton(nodes, labels, pats)
    ensures BreadthFirst(nodes, labels, order)
  {
    var queue := new nat[|inserted|];
    var qh, qt := 0, 0;
    nodes, qt := SeedQueue(inserted, queue, labels, pats);
    ghost var done: set<nat> := {0};
    while qh < qt
      invariant qh <= qt <= queue.Length && SameEdges(inserted, nodes)
      invariant Frontier(nodes, labels, pats, queue[..qt], qh, done)
      decreases queue.Length - qh
    {
      ghost var q, before := queue[..qt], nodes;
      HeadReady(nodes, labels, pats, q, qh, done);
      var u := queue[qh];
      qh := qh + 1;
      nodes, qt := VisitNode(nodes, u, queue, qt, labels, pats, done);
      assert q <= queue[..qt];
      HeadDone(before, nodes, labels, pats, q, queue[..qt], qh - 1, done, u);
      done := done + {u};
    }
    order := queue[..qt];
    AllLinked(nodes, labels, pats, order, done);
  }

  lemma AllLinked(nodes: seq<AcNode>, labels: seq<string>, pats: seq<string>, order: seq<nat>, done: set<nat>)
    requires Frontier(nodes, labels, pats, order, |order|, done)
    ensures Automaton(nodes, labels, pats) && BreadthFirst(nodes, labels, order)
  {
    forall x | 0 < x < |nodes| ensures x in order && Linked(nodes, labels, pats, x) {
      ShallowEnqueued(nodes, labels, pats, order, |order|, done, x);
    }
  }

  lemma StartPass(nodes: seq<AcNode>, labels: seq<string>, pats: seq<string>)
    requires Inserted(nodes, labels, pats)
    ensures Visiting(nodes, labels, pats, [], {}, 0, 0)
  {
    forall x | 0 <= x < |nodes| ensures Unlinked(nodes, labels, pats, x) && (x > 0 ==> labels[x] != []) {
      if x > 0 { NonRootLabel(nodes, labels, x); }
    }
  }

  /** `bs_known_bots_build_ac` on a non-empty table: insert, link, copy out. */
  method Build(pats: seq<string>) returns (nodes: seq<AcNode>)
    ensures exists labels :: Automaton(nodes, labels, pats)
  {
    ghost var labels;
    var inserted;
    inserted, labels := InsertAll(pats);
    var order;
    nodes, order := LinkFailures(inserted, labels, pats);
  }
}
