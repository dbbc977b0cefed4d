/** Known-bot classification of a User-Agent: the automaton scan and its sequential fallback. */
module BotDirectory {
  import opened Text
  import opened AhoCorasick
  import AcBuild
  import opened Wrappers

  datatype Entry = Entry(pattern: string, slug: string, category: string, botgroup: Option<string>)

  function Patterns(entries: seq<Entry>): (pats: seq<string>)
    ensures |pats| == |entries|
    ensures forall i :: 0 <= i < |entries| ==> pats[i] == Lower(entries[i].pattern)
  {
    seq(|entries|, i requires 0 <= i < |entries| => Lower(entries[i].pattern))
  }

  /** Some non-empty pattern occurs in the text. */
  ghost predicate AnyOccurs(pats: seq<string>, text: string) {
    exists i :: 0 <= i < |pats| && pats[i] != [] && Occurs(pats[i], text)
  }

  /** `k` is the first position where any pattern ends, and `idx` the longest pattern
      ending there, lowest index among equal ones. */
  ghost predicate FirstHit(pats: seq<string>, text: string, k: nat, idx: int) {
    && k <= |text| && idx != -1 && BestEnding(pats, text[..k], idx)
    && NothingEndsBefore(pats, text, k)
  }

  ghost predicate NothingEndsBefore(pats: seq<string>, text: string, k: nat)
    requires k <= |text| + 1
  {
    forall k' {:trigger text[..k']} :: 0 <= k' < k ==> BestEnding(pats, text[..k'], -1)
  }

  /** A scan that saw no output at any prefix means no pattern occurs anywhere. */
  lemma NoEndingNoOccurrence(pats: seq<string>, text: string)
    requires NothingEndsBefore(pats, text, |text| + 1)
    ensures !AnyOccurs(pats, text)
  {
    forall i, p: nat | 0 <= i < |pats| && pats[i] != [] && p + |pats[i]| <= |text|
      ensures !OccursAt(pats[i], text, p)
    {
      assert BestEnding(pats, text[..p + |pats[i]|], -1);
      if OccursAt(pats[i], text, p) { OccursEnds(pats[i], text, p); }
    }
  }

  lemma HitOccurs(pats: seq<string>, text: string, k: nat, idx: int)
    requires FirstHit(pats, text, k, idx)
    ensures 0 <= idx < |pats| && pats[idx] != [] && Occurs(pats[idx], text) && AnyOccurs(pats, text)
  {
    EndsOccurs(pats[idx], text, k);
  }

  /** The text reads `p` at the end of its first `k` characters. */
  predicate EndsAt(p: string, text: string, k: nat) {
    |p| <= k <= |text| && text[k - |p|..k] == p
  }

  /** The first hit, spelled out on the text: no non-empty pattern ends before `k`, `idx` does
      there, and any other that does is shorter, or as long and later in the table. */
  lemma FirstHitMeans(pats: seq<string>, text: string, k: nat, idx: int)
    requires FirstHit(pats, text, k, idx)
    ensures 0 <= idx < |pats| && pats[idx] != [] && EndsAt(pats[idx], text, k)
    ensures forall i, j: nat :: 0 <= i < |pats| && pats[i] != [] && j < k ==> !EndsAt(pats[i], text, j)
    ensures forall i :: 0 <= i < |pats| && pats[i] != [] && EndsAt(pats[i], text, k) ==>
      |pats[i]| < |pats[idx]| || (|pats[i]| == |pats[idx]| && idx <= i)
  {
    forall i, j: nat | 0 <= i < |pats| && j <= k ensures IsSuffix(pats[i], text[..j]) <==> EndsAt(pats[i], text, j) {
      if |pats[i]| <= j { assert text[..j][j - |pats[i]|..] == text[j - |pats[i]|..j]; }
    }
    forall i, j: nat | 0 <= i < |pats| && pats[i] != [] && j < k ensures !EndsAt(pats[i], text, j) {
      assert BestEnding(pats, text[..j], -1);
    }
  }

  /** The table and the User-Agent fix the answer: there is only one first hit. */
  lemma FirstHitUnique(pats: seq<string>, text: string, k1: nat, i1: int, k2: nat, i2: int)
    requires FirstHit(pats, text, k1, i1) && FirstHit(pats, text, k2, i2)
    ensures k1 == k2 && i1 == i2
  {
    HitOccurs(pats, text, k1, i1);
    HitOccurs(pats, text, k2, i2);
    assert IsSuffix(pats[i1], text[..k1]) && IsSuffix(pats[i2], text[..k2]);
    assert !BestEnding(pats, text[..k1], -1) && !BestEnding(pats, text[..k2], -1);
  }

  lemma OutputOfScan(nodes: seq<AcNode>, labels: seq<string>, pats: seq<string>, w: string, c: nat)
    requires Automaton(nodes, labels, pats) && IsLongest(labels, w, c)
    ensures c < |nodes| && BestEnding(pats, w, nodes[c].patternIdx)
  {
    if c != 0 { assert Linked(nodes, labels, pats, c); }
    BestOfLongest(labels, pats, w, c, nodes[c].patternIdx);
  }

  /** One byte of the scan: follow failures, then the edge if there is one. */
  method Advance(nodes: seq<AcNode>, cur: nat, b: char, ghost labels: seq<string>, ghost pats: seq<string>, ghost w: string)
      returns (next: nat, ghost steps: nat)
    requires Automaton(nodes, labels, pats) && IsLongest(labels, w, cur)
    ensures next < |nodes| && IsLongest(labels, w + [b], next) && BestEnding(pats, w + [b], nodes[next].patternIdx)
    ensures steps + |labels[next]| <= |labels[cur]| + 1
  {
    forall x | 0 < x < |nodes| ensures labels[x] != [] && IsLongest(labels, labels[x][1..], nodes[x].fail) {
      assert Linked(nodes, labels, pats, x);
    }
    next, steps := FollowFailures(nodes, b, cur, labels, w);
    var edge := FindEdge(nodes[next], b);
    SuccessorIsLongest(nodes, labels, w, b, next, edge);
    if edge >= 0 { next := edge; }
    OutputOfScan(nodes, labels, pats, w + [b], next);
  }

  /** The fast path: one pass over the text, stopping at the first output.
      `failSteps` counts failure links followed over the whole scan. */
  method Scan(nodes: seq<AcNode>, ua: string, ghost labels: seq<string>, ghost pats: seq<string>)
      returns (idx: int, ghost k: nat, ghost failSteps: nat)
    requires Automaton(nodes, labels, pats)
    ensures idx == -1 ==> !AnyOccurs(pats, Lower(ua))
    ensures idx != -1 ==> FirstHit(pats, Lower(ua), k, idx)
    ensures failSteps <= |ua|
  {
    ghost var text := Lower(ua);
    var cur := 0;
    k, failSteps := 0, 0;
    for i := 0 to |ua|
      invariant IsLongest(labels, text[..i], cur) && k == i
      invariant NothingEndsBefore(pats, text, i + 1)
      invariant failSteps + |labels[cur]| <= i
    {
      var b := LowerChar(ua[i]);
      ghost var w := text[..i];
      assert text[..i + 1] == w + [b];
      ghost var steps;
      cur, steps := Advance(nodes, cur, b, labels, pats, w);
      k, failSteps := i + 1, failSteps + steps;
      idx := nodes[cur].patternIdx;
      if idx >= 0 { return; }
    }
    idx := -1;
    NoEndingNoOccurrence(pats, text);
  }

  /** The fallback: first entry whose pattern occurs, an empty pattern included. */
  method Sequential(entries: seq<Entry>, ua: string) returns (idx: int)
    ensures idx == -1 ==> forall i :: 0 <= i < |entries| ==> !Occurs(Patterns(entries)[i], Lower(ua))
    ensures idx != -1 ==>
      && 0 <= idx < |entries| && Occurs(Patterns(entries)[idx], Lower(ua))
      && forall i :: 0 <= i < idx ==> !Occurs(Patterns(entries)[i], Lower(ua))
  {
    var text := Lower(ua);
    for i := 0 to |entries|
      invariant forall j :: 0 <= j < i ==> !Occurs(Patterns(entries)[j], text)
    {
      if Occurs(Lower(entries[i].pattern), text) { return i; }
    }
    return -1;
  }

  ghost predicate Built(nodes: seq<AcNode>, pats: seq<string>) {
    exists labels :: Automaton(nodes, labels, pats)
  }

  ghost predicate HasEmptyPattern(entries: seq<Entry>) {
    exists i :: 0 <= i < |entries| && entries[i].pattern == []
  }

  /** A published table. `nodes == []` stands for a state whose automaton was never built. */
  datatype State = State(entries: seq<Entry>, nodes: seq<AcNode>)

  ghost predicate ValidState(st: State) {
    st.nodes != [] ==> Built(st.nodes, Patterns(st.entries))
  }

  /** Wraps a table with a freshly built automaton; an empty table gets none. */
  method MakeState(entries: seq<Entry>) returns (st: State)
    ensures ValidState(st) && st.entries == entries && (st.nodes == [] <==> entries == [])
  {
    if |entries| == 0 { return State(entries, []); }
    var pats := Patterns(entries);
    var nodes := AcBuild.Build(pats);
    ghost var labels :| Automaton(nodes, labels, pats);
    st := State(entries, nodes);
  }

  /** `bs_ua_is_known_bot`, returning the index of the matched entry or -1. */
  method IsKnownBot(st: State, ua: string) returns (idx: int)
    requires ValidState(st)
    ensures -1 <= idx < |st.entries|
    // Automaton path: hit exactly when some non-empty pattern occurs, and then the first hit.
    ensures st.nodes != [] ==> (idx != -1 <==> AnyOccurs(Patterns(st.entries), Lower(ua)))
    ensures st.nodes != [] && idx != -1 ==> exists k :: FirstHit(Patterns(st.entries), Lower(ua), k, idx)
    // Sequential path: the first entry that occurs.
    ensures st.nodes == [] && ua != [] ==>
      (idx != -1 <==> exists i :: 0 <= i < |st.entries| && Occurs(Patterns(st.entries)[i], Lower(ua)))
    ensures st.nodes == [] && idx != -1 ==> forall i :: 0 <= i < idx ==> !Occurs(Patterns(st.entries)[i], Lower(ua))
    ensures idx != -1 ==> Occurs(Patterns(st.entries)[idx], Lower(ua))
  {
    ghost var pats := Patterns(st.entries);
    if ua == [] {
      return -1;
    }
    if st.nodes != [] {
      ghost var labels :| Automaton(st.nodes, labels, pats);
      ghost var k, steps;
      idx, k, steps := Scan(st.nodes, ua, labels, pats);
      if idx != -1 { HitOccurs(pats, Lower(ua), k, idx); }
      return;
    }
    idx := Sequential(st.entries, ua);
  }

  lemma EmptyOccurs(text: string)
    ensures Occurs([], text)
  {
    assert OccursAt([], text, 0);
  }

  /** The two paths give the same hit/miss verdict on a text exactly when the table has no
      empty pattern or the text holds some non-empty one. */
  lemma PathsAgree(entries: seq<Entry>, text: string)
    ensures (AnyOccurs(Patterns(entries), text)
             <==> exists i :: 0 <= i < |entries| && Occurs(Patterns(entries)[i], text))
      <==> (!HasEmptyPattern(entries) || AnyOccurs(Patterns(entries), text))
  {
    EmptyOccurs(text);
    var pats := Patterns(entries);
    if HasEmptyPattern(entries) {
      var i :| 0 <= i < |entries| && entries[i].pattern == [];
      assert pats[i] == [];
    }
  }

  /** They need not name the same entry: the automaton prefers the earliest end, the
      fallback the earliest table row. */
  lemma PathsNameDifferentEntries(pats: seq<string>, text: string)
    requires pats == ["bc", "ab"] && text == "abc"
    ensures FirstHit(pats, text, 2, 1) && Occurs(pats[0], text)
  {
    assert OccursAt(pats[0], text, 1);
    var none, a, ab := text[..0], text[..1], text[..2];
    assert |none| == 0 && |a| == 1 && |ab| == 2;
    assert BestEnding(pats, none, -1) && BestEnding(pats, a, -1);
    assert IsSuffix(pats[1], ab) && !IsSuffix(pats[0], ab) by {
      assert ab[0] == 'a' && ab[1] == 'b' && pats[0][0] == 'b' && pats[0][1] == 'c';
      assert ab[0..] == pats[1];
    }
  }
}
