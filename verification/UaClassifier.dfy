/**
 The verified-crawler classifier: a mutable trie whose nodes grow their child arrays by
 doubling, queried for the longest registered pattern occurring anywhere in a User-Agent.
 */
module UaClassifier {
  import opened Text
  import opened Wrappers

  /** One cell of a child array; cells past the child count were never written. */
  datatype Slot = Unset | Kid(c: char, node: TrieNode)

  class TrieNode {
    var kids: array<Slot>
    var nKids: nat
    var name: Option<string>

    /** The edges in use, as a sequence. */
    ghost var content: seq<Slot>

    ghost predicate Valid()
      reads this, kids
    {
      |content| == nKids <= kids.Length && forall i :: 0 <= i < nKids ==> kids[i] == content[i] && content[i].Kid?
    }

    constructor ()
      ensures Valid() && content == [] && name == None && fresh(kids)
    {
      kids := new Slot[0];
      nKids, content := 0, [];
      name := None;
    }

    /** Follows the edge on `c`, if there is one. */
    method Walk(c: char) returns (child: Option<TrieNode>)
      requires Valid()
      ensures child == Find(content, LowerChar(c))
    {
      var lc := LowerChar(c);
      for i := 0 to nKids
        invariant forall j :: 0 <= j < i ==> kids[j].c != lc
      {
        if kids[i].c == lc {
          FindAt(content, lc, i);
          return Some(kids[i].node);
        }
      }
      FindNone(content, lc);
      return None;
    }

    /** Follows the edge on `c`, adding a fresh leaf when there is none. A full child array
        is copied into one twice the size; no edge is lost or reordered. */
    method GetOrAdd(c: char) returns (child: TrieNode)
      requires Valid()
      modifies this`kids, this`nKids, this`content, kids
      ensures Valid() && (kids == old(kids) || fresh(kids))
      ensures old(Find(content, LowerChar(c))).Some? ==>
        Some(child) == old(Find(content, LowerChar(c))) && content == old(content) && kids == old(kids)
      ensures old(Find(content, LowerChar(c))).None? ==>
        && fresh(child) && fresh(child.kids) && child.Valid() && child.content == [] && child.name == None
        && child.kids != kids && name == old(name) && content == old(content) + [Kid(LowerChar(c), child)]
    {
      var found := Walk(c);
      if found.Some? { return found.value; }
      if nKids == kids.Length {
        var newCap := if kids.Length > 0 then kids.Length * 2 else 2;
        var grown := new Slot[newCap](i => Unset);
        for i := 0 to nKids
          invariant fresh(grown) && kids == old(kids) && nKids == old(nKids) && content == old(content) && Valid()
          invariant forall j :: 0 <= j < i ==> grown[j] == kids[j]
        {
          grown[i] := kids[i];
        }
        kids := grown;
      }
      child := new TrieNode();
      kids[nKids] := Kid(LowerChar(c), child);
      nKids, content := nKids + 1, content + [Kid(LowerChar(c), child)];
    }
  }

  /** First edge on `c`. */
  ghost function Find(edges: seq<Slot>, c: char): Option<TrieNode> {
    if edges == [] then None
    else if edges[0].Kid? && edges[0].c == c then Some(edges[0].node)
    else Find(edges[1..], c)
  }

  lemma {:induction false} FindAt(edges: seq<Slot>, c: char, i: nat)
    requires forall i :: 0 <= i < |edges| ==> edges[i].Kid?
    requires i < |edges| && edges[i].c == c && forall j :: 0 <= j < i ==> edges[j].c != c
    ensures Find(edges, c) == Some(edges[i].node)
  {
    if i > 0 { FindAt(edges[1..], c, i - 1); }
  }

  ghost predicate On(e: Slot, c: char) {
    e.Kid? && e.c == c
  }

  lemma {:induction false} FindNone(edges: seq<Slot>, c: char)
    ensures Find(edges, c) == None <==> forall j :: 0 <= j < |edges| ==> !On(edges[j], c)
  {
    if edges != [] {
      FindNone(edges[1..], c);
      assert forall j :: 0 <= j < |edges[1..]| ==> edges[1..][j] == edges[j + 1];
      if forall j :: 0 <= j < |edges[1..]| ==> !On(edges[1..][j], c) {
        assert forall j :: 1 <= j < |edges| ==> edges[j] == edges[1..][j - 1];
      } else {
        var j :| 0 <= j < |edges[1..]| && On(edges[1..][j], c);
        assert On(edges[j + 1], c);
      }
    }
  }

  // ----- the shape of the trie, on values --------------------------------

  type Graph = map<TrieNode, seq<Slot>>

  ghost predicate GoodEdge(g: Graph, spell: map<TrieNode, string>, n: TrieNode, i: nat)
    requires n in g && i < |g[n]| && g.Keys == spell.Keys
  {
    g[n][i].Kid? && g[n][i].node in g && spell[g[n][i].node] == spell[n] + [g[n][i].c]
  }

  ghost predicate HasParent(g: Graph, x: TrieNode) {
    exists n: TrieNode, i :: n in g && 0 <= i < |g[n]| && g[n][i].Kid? && g[n][i].node == x
  }

  ghost predicate SameLabel(spell: map<TrieNode, string>, m: TrieNode, n: TrieNode)
    requires m in spell && n in spell
  {
    spell[m] == spell[n]
  }

  ghost predicate IsTrie(g: Graph, root: TrieNode, spell: map<TrieNode, string>) {
    && root in g && g.Keys == spell.Keys && spell[root] == []
    && (forall n, i {:trigger GoodEdge(g, spell, n, i)} :: n in g && 0 <= i < |g[n]| ==> GoodEdge(g, spell, n, i))
    && (forall m, n {:trigger SameLabel(spell, m, n)} :: m in g && n in g && SameLabel(spell, m, n) ==> m == n)
    && (forall x {:trigger HasParent(g, x)} :: x in g && x != root ==> HasParent(g, x))
  }

  /** A word with no edge below it on `c` means nobody spells it followed by `c`. */
  lemma DeadEnd(g: Graph, root: TrieNode, spell: map<TrieNode, string>, n: TrieNode, c: char, x: TrieNode)
    requires IsTrie(g, root, spell) && n in g && x in g
    requires forall i :: 0 <= i < |g[n]| ==> !On(g[n][i], c)
    ensures spell[x] != spell[n] + [c]
  {
    if spell[x] == spell[n] + [c] {
      assert HasParent(g, x);
      var p: TrieNode, i :| p in g && 0 <= i < |g[p]| && g[p][i].Kid? && g[p][i].node == x;
      assert GoodEdge(g, spell, p, i);
      assert spell[p] == spell[x][..|spell[x]| - 1] == spell[n];
      assert SameLabel(spell, p, n);
    }
  }

  lemma {:induction false} PrefixSpelled(g: Graph, root: TrieNode, spell: map<TrieNode, string>, x: TrieNode, k: nat)
      returns (n: TrieNode)
    requires IsTrie(g, root, spell) && x in g && k <= |spell[x]|
    ensures n in g && spell[n] == spell[x][..k]
    decreases |spell[x]|
  {
    if k == |spell[x]| {
      n := x;
    } else {
      assert HasParent(g, x);
      var p: TrieNode, i :| p in g && 0 <= i < |g[p]| && g[p][i].Kid? && g[p][i].node == x;
      assert GoodEdge(g, spell, p, i);
      n := PrefixSpelled(g, root, spell, p, k);
    }
  }

  /** A fresh leaf keeps the shape. */
  lemma LeafAdded(g: Graph, root: TrieNode, spell: map<TrieNode, string>, n: TrieNode, c: char, leaf: TrieNode)
    requires IsTrie(g, root, spell) && n in g && leaf !in g
    requires forall i :: 0 <= i < |g[n]| ==> !On(g[n][i], c)
    ensures IsTrie(g[n := g[n] + [Kid(c, leaf)]][leaf := []], root, spell[leaf := spell[n] + [c]])
  {
    var g', spell' := g[n := g[n] + [Kid(c, leaf)]][leaf := []], spell[leaf := spell[n] + [c]];
    forall m, i | m in g' && 0 <= i < |g'[m]| ensures GoodEdge(g', spell', m, i) {
      if m in g && i < |g[m]| { assert GoodEdge(g, spell, m, i); }
    }
    forall a, b | a in g' && b in g' && SameLabel(spell', a, b) ensures a == b {
      if a in g { DeadEnd(g, root, spell, n, c, a); }
      if b in g { DeadEnd(g, root, spell, n, c, b); }
      if a in g && b in g { assert SameLabel(spell, a, b); }
    }
    forall x | x in g' && x != root ensures HasParent(g', x) {
      if x == leaf {
        assert g'[n][|g[n]|].node == x;
      } else {
        assert HasParent(g, x);
        var p: TrieNode, i :| p in g && 0 <= i < |g[p]| && g[p][i].Kid? && g[p][i].node == x;
        assert g'[p][i].node == x;
      }
    }
  }

  // ----- names on the trie ------------------------------------------------

  type Names = map<TrieNode, Option<string>>

  ghost predicate Spelled(spell: map<TrieNode, string>, p: string) {
    exists n :: n in spell && spell[n] == p
  }

  ghost function NameOf(reg: map<string, string>, p: string): Option<string> {
    if p in reg then Some(reg[p]) else None
  }

  /** Each node carries the name registered for exactly the word it spells. */
  ghost predicate Faithful(names: Names, spell: map<TrieNode, string>, reg: map<string, string>) {
    && names.Keys == spell.Keys
    && (forall n {:trigger names[n]} :: n in names ==> names[n] == NameOf(reg, spell[n]))
    && [] !in reg && (forall p {:trigger Spelled(spell, p)} :: p in reg ==> Spelled(spell, p))
  }

  lemma LeafFaithful(g: Graph, root: TrieNode, spell: map<TrieNode, string>, names: Names, reg: map<string, string>,
                     n: TrieNode, c: char, leaf: TrieNode)
    requires IsTrie(g, root, spell) && n in g && leaf !in g && Faithful(names, spell, reg)
    requires forall i :: 0 <= i < |g[n]| ==> !On(g[n][i], c)
    ensures Faithful(names[leaf := None], spell[leaf := spell[n] + [c]], reg)
  {
    var names', spell' := names[leaf := None], spell[leaf := spell[n] + [c]];
    forall p | p in reg ensures p != [] && Spelled(spell', p) && p != spell'[leaf] {
      assert Spelled(spell, p);
      var m: TrieNode :| m in spell && spell[m] == p;
      assert spell'[m] == p;
      DeadEnd(g, root, spell, n, c, m);
    }
    forall m | m in names' ensures names'[m] == NameOf(reg, spell'[m]) {
      if m != leaf { assert names[m] == NameOf(reg, spell[m]); }
    }
  }

  lemma NameSet(g: Graph, root: TrieNode, spell: map<TrieNode, string>, names: Names, reg: map<string, string>,
                n: TrieNode, name: string)
    requires IsTrie(g, root, spell) && n in g && Faithful(names, spell, reg) && spell[n] != []
    ensures Faithful(names[n := Some(name)], spell, reg[spell[n] := name])
  {
    var names', reg' := names[n := Some(name)], reg[spell[n] := name];
    forall m | m in names' ensures names'[m] == NameOf(reg', spell[m]) {
      if m != n {
        assert !SameLabel(spell, m, n);
        assert names[m] == NameOf(reg, spell[m]);
      }
    }
    forall p | p in reg' ensures p != [] && Spelled(spell, p) {
      if p in reg { assert Spelled(spell, p); }
    }
  }

  // ----- what a query must answer ----------------------------------------

  ghost predicate MatchAt(reg: map<string, string>, text: string, start: nat, len: nat) {
    0 < len && start + len <= |text| && text[start..start + len] in reg
  }

  /** The longest registered pattern occurring in `text`, earliest start among equals. */
  ghost predicate BestMatch(reg: map<string, string>, text: string, start: nat, len: nat) {
    && MatchAt(reg, text, start, len)
    && forall s: nat, l: nat :: MatchAt(reg, text, s, l) ==> l < len || (l == len && start <= s)
  }

  lemma MatchOccurs(reg: map<string, string>, text: string, p: string)
    requires p in reg && p != [] && forall s: nat, l: nat :: !MatchAt(reg, text, s, l)
    ensures !Occurs(p, text)
  {
    forall s: nat | s <= |text| ensures !OccursAt(p, text, s) {
      assert !MatchAt(reg, text, s, |p|);
    }
  }

  ghost predicate SubsumedBy(best: Option<(nat, nat)>, s: nat, l: nat) {
    best.Some? && (l < best.value.1 || (l == best.value.1 && best.value.0 <= s))
  }

  /** The running best covers every match starting before `start`, and those at `start` up
      to length `len`; `name` and `bestLen` describe it. */
  ghost predicate Tracks(reg: map<string, string>, text: string, start: nat, len: nat,
                         best: Option<(nat, nat)>, name: Option<string>, bestLen: nat) {
    && (best.Some? ==> MatchAt(reg, text, best.value.0, best.value.1) && best.value.0 <= start)
    && bestLen == (if best.Some? then best.value.1 else 0)
    && name == (if best.Some? then Some(reg[text[best.value.0..best.value.0 + best.value.1]]) else None)
    && forall s: nat, l: nat :: MatchAt(reg, text, s, l) && (s < start || (s == start && l <= len)) ==>
         SubsumedBy(best, s, l)
  }

  lemma TracksLonger(reg: map<string, string>, text: string, start: nat, len: nat,
                     best: Option<(nat, nat)>, name: Option<string>, bestLen: nat)
    requires len > 0 && start + len <= |text| && Tracks(reg, text, start, len - 1, best, name, bestLen)
    ensures var w := text[start..start + len];
      if w in reg && len > bestLen
      then Tracks(reg, text, start, len, Some((start, len)), Some(reg[w]), len)
      else Tracks(reg, text, start, len, best, name, bestLen)
  {
    var w := text[start..start + len];
    var best' := if w in reg && len > bestLen then Some((start, len)) else best;
    forall s: nat, l: nat | MatchAt(reg, text, s, l) && (s < start || (s == start && l <= len))
      ensures SubsumedBy(best', s, l)
    {
      if s < start || l <= len - 1 {
        assert SubsumedBy(best, s, l);
      }
    }
  }

  lemma TracksNextStart(reg: map<string, string>, text: string, start: nat, len: nat,
                        best: Option<(nat, nat)>, name: Option<string>, bestLen: nat)
    requires Tracks(reg, text, start, len, best, name, bestLen)
    requires forall l: nat :: l > len ==> !MatchAt(reg, text, start, l)
    ensures Tracks(reg, text, start + 1, 0, best, name, bestLen)
  {
    forall s: nat, l: nat | MatchAt(reg, text, s, l) && (s < start + 1 || (s == start + 1 && l <= 0))
      ensures SubsumedBy(best, s, l)
    {
      assert l > len ==> !MatchAt(reg, text, start, l);
    }
  }

  lemma ScanComplete(reg: map<string, string>, text: string,
                     best: Option<(nat, nat)>, name: Option<string>, bestLen: nat)
    requires Tracks(reg, text, |text|, 0, best, name, bestLen) && [] !in reg
    ensures name == None ==> forall p :: p in reg ==> !Occurs(p, text)
    ensures name.Some? ==>
      && best.Some? && BestMatch(reg, text, best.value.0, best.value.1)
      && name == Some(reg[text[best.value.0..best.value.0 + best.value.1]])
  {
    forall s: nat, l: nat | MatchAt(reg, text, s, l) ensures SubsumedBy(best, s, l) {
      assert s < |text|;
    }
    forall p | p in reg && name == None ensures !Occurs(p, text) {
      MatchOccurs(reg, text, p);
    }
  }

  class Classifier {
    var root: TrieNode
    /** Lowercased pattern to the name last registered for it. */
    ghost var registered: map<string, string>
    /** The heap's content on values: the edges and the name of every node. */
    ghost var edges: Graph
    ghost var names: Names
    ghost var spell: map<TrieNode, string>
    /** Which node a child array belongs to. */
    ghost var owner: map<array<Slot>, TrieNode>
    ghost var repr: set<object>

    ghost predicate Holds(n: TrieNode)
      requires n in edges && n in names
      reads this, repr
    {
      && n in repr && n.kids in repr && n.kids in owner && owner[n.kids] == n
      && n.Valid() && n.content == edges[n] && n.name == names[n]
    }

    ghost predicate Concrete()
      reads this, repr
    {
      edges.Keys == names.Keys && forall n {:trigger Holds(n)} :: n in edges ==> Holds(n)
    }

    ghost predicate Valid()
      reads this, repr
    {
      Concrete() && IsTrie(edges, root, spell) && Faithful(names, spell, registered)
    }

    constructor ()
      ensures Valid() && registered == map[] && fresh(repr)
    {
      root := new TrieNode();
      new;
      edges, names, spell, registered := map[root := []], map[root := None], map[root := []], map[];
      owner, repr := map[root.kids := root], {root, root.kids};
    }

    /** Every node but `n` is as recorded. */
    ghost predicate HoldsBut(n: TrieNode)
      reads this, repr
    {
      edges.Keys == names.Keys && forall m {:trigger Holds(m)} :: m in edges && m != n ==> Holds(m)
    }

    /** Records a fresh leaf that `n` has just been given. */
    ghost method Adopt(n: TrieNode, c: char, leaf: TrieNode)
      requires n in edges && n in repr && n in spell && HoldsBut(n)
      requires n.Valid() && n.content == edges[n] + [Kid(c, leaf)] && n.name == names[n]
      requires (n.kids in owner && n.kids in repr && owner[n.kids] == n) || n.kids !in repr
      requires leaf.Valid() && leaf.content == [] && leaf.name == None
      requires leaf !in repr && leaf.kids !in repr && leaf.kids != n.kids && leaf !in edges
      modifies this`edges, this`names, this`spell, this`owner, this`repr
      ensures Concrete() && repr == old(repr) + {n.kids, leaf, leaf.kids}
      ensures edges == old(edges)[n := old(edges)[n] + [Kid(c, leaf)]][leaf := []]
      ensures names == old(names)[leaf := None] && spell == old(spell)[leaf := old(spell)[n] + [c]]
    {
      repr := repr + {n.kids, leaf, leaf.kids};
      owner := owner[n.kids := n][leaf.kids := leaf];
      edges := edges[n := edges[n] + [Kid(c, leaf)]][leaf := []];
      names, spell := names[leaf := None], spell[leaf := spell[n] + [c]];
      forall m | m in edges ensures Holds(m) {
        if m != n && m != leaf { assert old(Holds(m)); }
      }
    }

    /** One step of an insertion from a node of the trie. */
    method Step(n: TrieNode, c: char) returns (child: TrieNode)
      requires Valid() && n in edges
      modifies this`edges, this`names, this`spell, this`owner, this`repr, n`kids, n`nKids, n`content, n.kids
      ensures Valid() && fresh(repr - old(repr))
      ensures child in edges && spell[child] == old(spell[n]) + [LowerChar(c)]
    {
      ghost var es, lc := edges[n], LowerChar(c);
      assert Holds(n);
      FindNone(es, lc);
      forall m | m in edges ensures m in repr { assert Holds(m); }
      child := n.GetOrAdd(c);
      OthersHold(n);
      if Find(es, lc).Some? {
        FindIn(es, lc);
        ghost var i :| 0 <= i < |es| && es[i] == Kid(lc, child);
        assert GoodEdge(edges, spell, n, i);
        assert Holds(n);
      } else {
        LeafAdded(edges, root, spell, n, lc, child);
        LeafFaithful(edges, root, spell, names, registered, n, lc, child);
        Adopt(n, lc, child);
      }
    }

    /** Changing `n` and its child array leaves every other node as recorded. */
    twostate lemma OthersHold(n: TrieNode)
      requires old(Concrete()) && n in edges
      requires unchanged(this)
      requires forall o :: o in old(repr) && o != n && o != old(n.kids) ==> unchanged(o)
      ensures HoldsBut(n)
    {
      assert old(Holds(n));
      forall m | m in edges && m != n ensures Holds(m) {
        assert old(Holds(m));
        assert unchanged(m) && unchanged(m.kids);
      }
    }

    /** Registers `name` for `pattern`, ignoring case; a later registration of the same
        pattern replaces the name. Refuses an empty pattern. */
    method Add(name: string, pattern: string) returns (ok: bool)
      requires Valid()
      modifies this, repr
      ensures Valid() && fresh(repr - old(repr))
      ensures ok <==> pattern != []
      ensures registered == if ok then old(registered)[Lower(pattern) := name] else old(registered)
    {
      if pattern == [] { return false; }
      ghost var p := Lower(pattern);
      var n := root;
      for i := 0 to |pattern|
        invariant Valid() && fresh(repr - old(repr)) && registered == old(registered)
        invariant n in edges && spell[n] == p[..i]
      {
        assert p[..i + 1] == p[..i] + [p[i]];
        assert Holds(n);
        n := Step(n, pattern[i]);
      }
      assert p[..|p|] == p;
      assert Holds(n);
      SetName(n, name);
      return true;
    }

    method SetName(n: TrieNode, name: string)
      requires Valid() && n in edges && spell[n] != []
      modifies this`names, this`registered, n`name
      ensures Valid() && registered == old(registered)[spell[n] := name]
    {
      NameSet(edges, root, spell, names, registered, n, name);
      label L:
      n.name := Some(name);
      registered, names := registered[spell[n] := name], names[n := Some(name)];
      forall m | m in edges ensures Holds(m) {
        assert old@L(Holds(m));
      }
    }

    /** The name of the longest registered pattern occurring in the User-Agent. */
    method Classify(ua: string) returns (bestName: Option<string>, ghost best: Option<(nat, nat)>)
      requires Valid()
      ensures bestName == None ==> forall p :: p in registered ==> !Occurs(p, Lower(ua))
      ensures bestName.Some? ==>
        && best.Some? && BestMatch(registered, Lower(ua), best.value.0, best.value.1)
        && bestName == Some(registered[Lower(ua)[best.value.0..best.value.0 + best.value.1]])
    {
      ghost var text := Lower(ua);
      bestName, best := None, None;
      var bestLen := 0;
      for start := 0 to |ua|
        invariant Valid()
        invariant Tracks(registered, text, start, 0, best, bestName, bestLen)
      {
        bestName, bestLen, best := ClassifyFrom(ua, start, bestName, bestLen, best);
      }
      ScanComplete(registered, text, best, bestName, bestLen);
    }

    /** The inner walk of a query, from one start position. */
    method ClassifyFrom(ua: string, start: nat, name: Option<string>, length: nat, ghost b: Option<(nat, nat)>)
        returns (bestName: Option<string>, bestLen: nat, ghost best: Option<(nat, nat)>)
      requires Valid() && start < |ua| && Tracks(registered, Lower(ua), start, 0, b, name, length)
      ensures Tracks(registered, Lower(ua), start + 1, 0, best, bestName, bestLen)
    {
      ghost var text := Lower(ua);
      bestName, bestLen, best := name, length, b;
      var n, len := root, 0;
      for p := start to |ua|
        invariant Valid() && n in edges && len == p - start && spell[n] == text[start..p]
        invariant Tracks(registered, text, start, len, best, bestName, bestLen)
      {
        assert text[start..p + 1] == text[start..p] + [LowerChar(ua[p])];
        assert Holds(n);
        var next := n.Walk(ua[p]);
        if next.None? {
          NoLongerMatch(text, start, len, n);
          TracksNextStart(registered, text, start, len, best, bestName, bestLen);
          return;
        }
        StepDown(n, ua[p], next.value);
        n, len := next.value, len + 1;
        NameAt(n);
        TracksLonger(registered, text, start, len, best, bestName, bestLen);
        if n.name.Some? && len > bestLen {
          bestName, bestLen, best := n.name, len, Some((start, len));
        }
      }
      TracksNextStart(registered, text, start, len, best, bestName, bestLen);
    }

    lemma NameAt(n: TrieNode)
      requires Valid() && n in edges
      ensures n in spell && n.name == NameOf(registered, spell[n])
    {
      assert Holds(n) && names[n] == NameOf(registered, spell[n]);
    }

    lemma StepDown(n: TrieNode, c: char, child: TrieNode)
      requires Valid() && n in edges && Find(edges[n], LowerChar(c)) == Some(child)
      ensures child in edges && spell[child] == spell[n] + [LowerChar(c)]
    {
      var g: Graph := edges;
      FindIn(g[n], LowerChar(c));
      var i :| 0 <= i < |g[n]| && g[n][i] == Kid(LowerChar(c), child);
      assert GoodEdge(g, spell, n, i);
    }

    /** Where the walk dies, no longer match starts at the same position. */
    lemma NoLongerMatch(text: string, start: nat, len: nat, n: TrieNode)
      requires Valid() && n in edges && start + len < |text| && spell[n] == text[start..start + len]
      requires Find(edges[n], text[start + len]) == None
      ensures forall l: nat :: l > len ==> !MatchAt(registered, text, start, l)
    {
      var g: Graph := edges;
      FindNone(g[n], text[start + len]);
      forall l: nat | l > len ensures !MatchAt(registered, text, start, l) {
        if MatchAt(registered, text, start, l) {
          var p := text[start..start + l];
          assert Spelled(spell, p);
          var x: TrieNode :| x in spell && spell[x] == p;
          var y := PrefixSpelled(g, root, spell, x, len + 1);
          assert p[..len + 1] == text[start..start + len] + [text[start + len]];
          DeadEnd(g, root, spell, n, text[start + len], y);
        }
      }
    }
  }

  lemma {:induction false} FindIn(edges: seq<Slot>, c: char)
    requires Find(edges, c).Some?
    ensures exists i :: 0 <= i < |edges| && edges[i] == Kid(c, Find(edges, c).value)
  {
    if On(edges[0], c) {
      assert edges[0] == Kid(c, Find(edges, c).value);
    } else {
      FindIn(edges[1..], c);
      var i :| 0 <= i < |edges[1..]| && edges[1..][i] == Kid(c, Find(edges[1..], c).value);
      assert edges[i + 1] == Kid(c, Find(edges, c).value);
    }
  }
}
