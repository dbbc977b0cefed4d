/**
 The bot-directory matcher: a trie of lowercased patterns, failure links laid
 breadth-first, and a scan that stops at the first node carrying an output.

 The label of a node (the word spelled from the root) is ghost: the code never
 stores it, and every claim about the automaton is a claim about labels.
 */
module AhoCorasick {
  import opened Text

  datatype Edge = Edge(byte: char, target: nat)

  datatype AcNode = AcNode(edges: seq<Edge>, fail: nat, patternIdx: int)

  // ----- the trie -------------------------------------------------------

  ghost predicate EdgeOk(nodes: seq<AcNode>, labels: seq<string>, n: nat, j: nat)
    requires |labels| == |nodes| && n < |nodes| && j < |nodes[n].edges|
  {
    var e := nodes[n].edges[j];
    0 < e.target < |nodes| && labels[e.target] == labels[n] + [e.byte]
  }

  ghost predicate IsChild(nodes: seq<AcNode>, n: nat, x: nat)
    requires n < |nodes|
  {
    exists j :: 0 <= j < |nodes[n].edges| && nodes[n].edges[j].target == x
  }

  ghost predicate HasParent(nodes: seq<AcNode>, x: nat) {
    exists n :: 0 <= n < |nodes| && IsChild(nodes, n, x)
  }

  /** Node `n` has no two edges on the same byte. */
  ghost predicate Deterministic(node: AcNode) {
    forall i, j :: 0 <= i < j < |node.edges| ==> node.edges[i].byte != node.edges[j].byte
  }

  ghost predicate SameLabel(labels: seq<string>, m: nat, n: nat)
    requires m < |labels| && n < |labels|
  {
    labels[m] == labels[n]
  }

  ghost predicate Trie(nodes: seq<AcNode>, labels: seq<string>) {
    && |labels| == |nodes| >= 1
    && labels[0] == []
    && (forall n, j {:trigger EdgeOk(nodes, labels, n, j)} ::
          0 <= n < |nodes| && 0 <= j < |nodes[n].edges| ==> EdgeOk(nodes, labels, n, j))
    && (forall n {:trigger Deterministic(nodes[n])} :: 0 <= n < |nodes| ==> Deterministic(nodes[n]))
    && (forall x :: 0 < x < |nodes| ==> HasParent(nodes, x))
    && (forall m, n {:trigger SameLabel(labels, m, n)} ::
          0 <= m < |labels| && 0 <= n < |labels| && SameLabel(labels, m, n) ==> m == n)
  }

  ghost predicate SameEdges(nodes: seq<AcNode>, nodes': seq<AcNode>) {
    |nodes| == |nodes'| && forall n :: 0 <= n < |nodes| ==> nodes'[n].edges == nodes[n].edges
  }

  /** The trie shape does not depend on failure links or outputs. */
  lemma TrieFrame(nodes: seq<AcNode>, nodes': seq<AcNode>, labels: seq<string>)
    requires Trie(nodes, labels) && SameEdges(nodes, nodes')
    ensures Trie(nodes', labels)
  {
    forall n, j | 0 <= n < |nodes'| && 0 <= j < |nodes'[n].edges| ensures EdgeOk(nodes', labels, n, j) {
      assert EdgeOk(nodes, labels, n, j);
    }
    forall n | 0 <= n < |nodes'| ensures Deterministic(nodes'[n]) {
      assert Deterministic(nodes[n]);
    }
    forall x | 0 < x < |nodes'| ensures HasParent(nodes', x) {
      assert HasParent(nodes, x);
      var n :| 0 <= n < |nodes| && IsChild(nodes, n, x);
      assert IsChild(nodes', n, x);
    }
  }

  /** The parent of a node spells its label without the last byte. */
  lemma ParentOf(nodes: seq<AcNode>, labels: seq<string>, x: nat) returns (n: nat, j: nat)
    requires Trie(nodes, labels) && 0 < x < |nodes|
    ensures n < |nodes| && j < |nodes[n].edges| && nodes[n].edges[j].target == x
    ensures labels[x] == labels[n] + [nodes[n].edges[j].byte]
  {
    assert HasParent(nodes, x);
    n :| 0 <= n < |nodes| && IsChild(nodes, n, x);
    j :| 0 <= j < |nodes[n].edges| && nodes[n].edges[j].target == x;
    assert EdgeOk(nodes, labels, n, j);
  }

  /** If `s + [b]` is a label then so is `s`, and the edge between them exists. */
  lemma EdgeExists(nodes: seq<AcNode>, labels: seq<string>, x: nat, n: nat)
    requires Trie(nodes, labels) && 0 < x < |nodes| && n < |nodes|
    requires labels[x] != [] && labels[x][..|labels[x]| - 1] == labels[n]
    ensures exists j :: 0 <= j < |nodes[n].edges| && nodes[n].edges[j] == Edge(labels[x][|labels[x]| - 1], x)
  {
    var p, j := ParentOf(nodes, labels, x);
    assert labels[x][..|labels[x]| - 1] == labels[p];
    assert SameLabel(labels, p, n);
    assert nodes[n].edges[j] == Edge(labels[x][|labels[x]| - 1], x);
  }

  lemma NonRootLabel(nodes: seq<AcNode>, labels: seq<string>, x: nat)
    requires Trie(nodes, labels) && 0 < x < |nodes|
    ensures labels[x] != []
  {
    assert !SameLabel(labels, 0, x);
  }

  lemma {:induction false} PrefixClosed(nodes: seq<AcNode>, labels: seq<string>, x: nat, k: nat)
      returns (n: nat)
    requires Trie(nodes, labels) && x < |nodes| && k <= |labels[x]|
    ensures n < |nodes| && labels[n] == labels[x][..k]
    decreases |labels[x]|
  {
    if k == |labels[x]| {
      n := x;
    } else {
      var p, j := ParentOf(nodes, labels, x);
      n := PrefixClosed(nodes, labels, p, k);
    }
  }

  // ----- longest suffixes and outputs -----------------------------------

  /** Node `c` spells the longest label that is a suffix of `w`. */
  ghost predicate IsLongest(labels: seq<string>, w: string, c: nat) {
    && c < |labels|
    && IsSuffix(labels[c], w)
    && forall m {:trigger IsSuffix(labels[m], w)} :: 0 <= m < |labels| && IsSuffix(labels[m], w) ==> |labels[m]| <= |labels[c]|
  }

  /** `idx` names the longest non-empty pattern that `w` ends with, lowest index
      among equal patterns; -1 when `w` ends with none. */
  ghost predicate BestEnding(pats: seq<string>, w: string, idx: int) {
    if idx == -1 then
      forall i {:trigger IsSuffix(pats[i], w)} :: 0 <= i < |pats| && pats[i] != [] ==> !IsSuffix(pats[i], w)
    else
      && 0 <= idx < |pats|
      && pats[idx] != []
      && IsSuffix(pats[idx], w)
      && forall i {:trigger IsSuffix(pats[i], w)} :: 0 <= i < |pats| && pats[i] != [] && IsSuffix(pats[i], w) ==>
           |pats[i]| < |pats[idx]| || (|pats[i]| == |pats[idx]| && idx <= i)
  }

  /** The terminal mark left by insertion: the lowest-indexed pattern spelled exactly. */
  ghost predicate Terminal(pats: seq<string>, w: string, idx: int) {
    if idx == -1 then
      forall i :: 0 <= i < |pats| && pats[i] != [] ==> pats[i] != w
    else
      0 <= idx < |pats| && pats[idx] != [] && pats[idx] == w && forall i :: 0 <= i < idx ==> pats[i] != w
  }

  ghost predicate Spelled(labels: seq<string>, w: string) {
    exists n :: 0 <= n < |labels| && labels[n] == w
  }

  /** Every non-empty pattern is the label of some node. */
  ghost predicate AllSpelled(pats: seq<string>, labels: seq<string>) {
    forall i {:trigger Spelled(labels, pats[i])} :: 0 <= i < |pats| && pats[i] != [] ==> Spelled(labels, pats[i])
  }

  /** Failure link and output of node `x` are what the automaton promises. */
  ghost predicate Linked(nodes: seq<AcNode>, labels: seq<string>, pats: seq<string>, x: nat)
    requires |labels| == |nodes| && x < |nodes|
  {
    && labels[x] != []
    && IsLongest(labels, labels[x][1..], nodes[x].fail)
    && BestEnding(pats, labels[x], nodes[x].patternIdx)
  }

  ghost predicate RootOk(nodes: seq<AcNode>) {
    |nodes| >= 1 && nodes[0].fail == 0 && nodes[0].patternIdx == -1
  }

  ghost predicate Automaton(nodes: seq<AcNode>, labels: seq<string>, pats: seq<string>) {
    && Trie(nodes, labels)
    && RootOk(nodes)
    && AllSpelled(pats, labels)
    && forall x {:trigger Linked(nodes, labels, pats, x)} :: 0 < x < |nodes| ==> Linked(nodes, labels, pats, x)
  }

  /** A word and its longest label suffix end with the same best pattern. */
  lemma BestOfLongest(labels: seq<string>, pats: seq<string>, w: string, c: nat, idx: int)
    requires AllSpelled(pats, labels) && IsLongest(labels, w, c)
    requires BestEnding(pats, labels[c], idx)
    ensures BestEnding(pats, w, idx)
  {
    forall i | 0 <= i < |pats| && pats[i] != [] && IsSuffix(pats[i], w)
      ensures IsSuffix(pats[i], labels[c])
    {
      assert Spelled(labels, pats[i]);
      var n :| 0 <= n < |labels| && labels[n] == pats[i];
      SuffixNest(labels[n], labels[c], w);
    }
  }

  /** Output propagation: a node without a terminal of its own takes its failure target's output. */
  lemma OutputPropagates(labels: seq<string>, pats: seq<string>, w: string, f: nat, own: int, inherited: int)
    requires w != [] && AllSpelled(pats, labels) && IsLongest(labels, w[1..], f)
    requires Terminal(pats, w, own) && own >= -1 && BestEnding(pats, labels[f], inherited)
    ensures BestEnding(pats, w, if own < 0 then inherited else own)
  {
    BestOfLongest(labels, pats, w[1..], f, inherited);
    forall i | 0 <= i < |pats| && pats[i] != [] && IsSuffix(pats[i], w) && pats[i] != w
      ensures IsSuffix(pats[i], w[1..])
    {
      SuffixTail(pats[i], w);
    }
    if own < 0 {
      if inherited != -1 {
        SuffixTail(pats[inherited], w);
      }
    } else {
      assert w[0..] == w;
      forall i | 0 <= i < |pats| && pats[i] != [] && IsSuffix(pats[i], w)
        ensures |pats[i]| < |pats[own]| || (|pats[i]| == |pats[own]| && own <= i)
      {
        if |pats[i]| == |w| { assert pats[i] == w; }
      }
    }
  }

  // ----- walking --------------------------------------------------------

  /** Linear scan of a node's edges; -1 when no edge carries `b`. */
  method FindEdge(node: AcNode, b: char) returns (target: int)
    ensures target == -1 ==> forall j :: 0 <= j < |node.edges| ==> node.edges[j].byte != b
    ensures target != -1 ==> target >= 0 && exists j :: 0 <= j < |node.edges| && node.edges[j] == Edge(b, target)
  {
    for i := 0 to |node.edges|
      invariant forall j :: 0 <= j < i ==> node.edges[j].byte != b
    {
      if node.edges[i].byte == b { return node.edges[i].target; }
    }
    return -1;
  }

  /** Labels that are suffixes of `w` longer than `bound` have no `b`-successor. */
  ghost predicate DeadAbove(labels: seq<string>, w: string, b: char, bound: nat) {
    forall m, x :: 0 <= m < |labels| && 0 <= x < |labels| && IsSuffix(labels[m], w) && |labels[m]| > bound
      ==> labels[x] != labels[m] + [b]
  }

  /** No edge on `b` out of node `n` means no label `labels[n] + [b]`. */
  lemma NoEdgeNoLabel(nodes: seq<AcNode>, labels: seq<string>, n: nat, b: char)
    requires Trie(nodes, labels) && n < |nodes|
    requires forall j :: 0 <= j < |nodes[n].edges| ==> nodes[n].edges[j].byte != b
    ensures forall x :: 0 <= x < |labels| ==> labels[x] != labels[n] + [b]
  {
    forall x | 0 <= x < |labels| ensures labels[x] != labels[n] + [b] {
      if labels[x] == labels[n] + [b] {
        assert labels[x][..|labels[x]| - 1] == labels[n];
        EdgeExists(nodes, labels, x, n);
      }
    }
  }

  /** One failure step keeps every live continuation of `w` in reach. */
  lemma FailStep(nodes: seq<AcNode>, labels: seq<string>, w: string, b: char, f: nat)
    requires Trie(nodes, labels) && 0 < f < |nodes| && labels[f] != []
    requires IsSuffix(labels[f], w) && DeadAbove(labels, w, b, |labels[f]|)
    requires forall x :: 0 <= x < |labels| ==> labels[x] != labels[f] + [b]
    requires IsLongest(labels, labels[f][1..], nodes[f].fail)
    ensures var g := nodes[f].fail;
      IsSuffix(labels[g], w) && |labels[g]| < |labels[f]| && DeadAbove(labels, w, b, |labels[g]|)
  {
    var g := nodes[f].fail;
    SuffixTail(labels[g], labels[f]);
    forall m, x | 0 <= m < |labels| && 0 <= x < |labels| && IsSuffix(labels[m], w) && |labels[m]| > |labels[g]|
      ensures labels[x] != labels[m] + [b]
    {
      if |labels[m]| <= |labels[f]| {
        SuffixNest(labels[m], labels[f], w);
        if labels[m] != labels[f] {
          SuffixTail(labels[m], labels[f]);
          assert false;
        }
      }
    }
  }

  /** `while (f != root && no edge on b) f = fail(f)`: lands on the longest label
      suffix of `w` that can be continued by `b`, or on the root. Each step shortens
      the label, which is what bounds the scan. */
  method FollowFailures(nodes: seq<AcNode>, b: char, start: nat, ghost labels: seq<string>, ghost w: string)
      returns (f: nat, ghost steps: nat)
    requires Trie(nodes, labels) && IsLongest(labels, w, start)
    requires forall x :: 0 < x < |nodes| && |labels[x]| <= |labels[start]| ==>
               labels[x] != [] && IsLongest(labels, labels[x][1..], nodes[x].fail)
    ensures f < |nodes| && IsSuffix(labels[f], w) && DeadAbove(labels, w, b, |labels[f]|)
    ensures f == 0 || exists j :: 0 <= j < |nodes[f].edges| && nodes[f].edges[j].byte == b
    ensures steps + |labels[f]| <= |labels[start]|
  {
    f, steps := start, 0;
    var next := FindEdge(nodes[f], b);
    while f != 0 && next < 0
      invariant f < |nodes| && IsSuffix(labels[f], w) && DeadAbove(labels, w, b, |labels[f]|)
      invariant next < 0 ==> forall j :: 0 <= j < |nodes[f].edges| ==> nodes[f].edges[j].byte != b
      invariant next >= 0 ==> exists j :: 0 <= j < |nodes[f].edges| && nodes[f].edges[j].byte == b
      invariant steps + |labels[f]| <= |labels[start]|
      decreases |labels[f]|
    {
      NoEdgeNoLabel(nodes, labels, f, b);
      FailStep(nodes, labels, w, b, f);
      f, steps := nodes[f].fail, steps + 1;
      next := FindEdge(nodes[f], b);
    }
  }

  /** After the walk, the `b`-successor (or the root) is the longest label suffix of `w + [b]`. */
  lemma SuccessorIsLongest(nodes: seq<AcNode>, labels: seq<string>, w: string, b: char, f: nat, next: int)
    requires Trie(nodes, labels) && f < |nodes|
    requires IsSuffix(labels[f], w) && DeadAbove(labels, w, b, |labels[f]|)
    requires next == -1 ==> f == 0 && forall j :: 0 <= j < |nodes[f].edges| ==> nodes[f].edges[j].byte != b
    requires next != -1 ==> next >= 0 && exists j :: 0 <= j < |nodes[f].edges| && nodes[f].edges[j] == Edge(b, next)
    ensures IsLongest(labels, w + [b], if next == -1 then 0 else next)
    ensures next != -1 ==> next < |nodes| && labels[next] == labels[f] + [b]
  {
    var c := if next == -1 then 0 else next;
    if next == -1 {
      NoEdgeNoLabel(nodes, labels, f, b);
    } else {
      var j :| 0 <= j < |nodes[f].edges| && nodes[f].edges[j] == Edge(b, next);
      assert EdgeOk(nodes, labels, f, j);
    }
    forall x | 0 <= x < |labels| && IsSuffix(labels[x], w + [b]) ensures |labels[x]| <= |labels[c]| {
      if labels[x] != [] {
        var m := PrefixClosed(nodes, labels, x, |labels[x]| - 1);
        assert labels[x] == labels[m] + [b];
      }
    }
  }
}
