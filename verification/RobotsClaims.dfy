/** Which robots.txt group governs each directory slug. */
module RobotsClaims {

  /** A parsed group: `delayMs` is its Crawl-delay, `observe` its resolved mode. */
  datatype Group = Group(wildcard: bool, delayMs: nat, tokens: seq<string>, observe: bool)

  /** Group `g` claims `slug` through a token of length `len`. */
  datatype Claim = Claim(slug: string, g: nat, len: nat)

  // ----- the claims of a document, in document order -------------------------

  function SlugClaims(slugs: seq<string>, n: nat, g: nat, len: nat): (c: seq<Claim>)
    requires n <= |slugs|
  {
    if n == 0 then [] else SlugClaims(slugs, n - 1, g, len) + [Claim(slugs[n - 1], g, len)]
  }

  function TokenClaims(tokens: seq<string>, n: nat, g: nat, resolve: string -> seq<string>): seq<Claim>
    requires n <= |tokens|
  {
    if n == 0 then []
    else TokenClaims(tokens, n - 1, g, resolve) + OfToken(tokens[n - 1], g, resolve)
  }

  function ClaimsOf(groups: seq<Group>, n: nat, resolve: string -> seq<string>): seq<Claim>
    requires n <= |groups|
  {
    if n == 0 then []
    else ClaimsOf(groups, n - 1, resolve) + OfGroup(groups[n - 1], n - 1, resolve)
  }

  /** The claims one token adds. */
  function OfToken(tok: string, g: nat, resolve: string -> seq<string>): seq<Claim> {
    if tok == "" then [] else SlugClaims(resolve(tok), |resolve(tok)|, g, |tok|)
  }

  /** The claims one group adds. */
  function OfGroup(grp: Group, g: nat, resolve: string -> seq<string>): seq<Claim> {
    if grp.wildcard then [] else TokenClaims(grp.tokens, |grp.tokens|, g, resolve)
  }

  // ----- which claim governs ---------------------------------------------------

  ghost predicate InDoc(groups: seq<Group>, c: Claim) {
    c.g < |groups|
  }

  /** `a` loses to `b`: shorter token, or as long with a smaller delay. */
  ghost predicate Weaker(groups: seq<Group>, a: Claim, b: Claim)
    requires InDoc(groups, a) && InDoc(groups, b)
  {
    a.len < b.len || (a.len == b.len && groups[a.g].delayMs < groups[b.g].delayMs)
  }

  ghost predicate Ties(groups: seq<Group>, a: Claim, b: Claim)
    requires InDoc(groups, a) && InDoc(groups, b)
  {
    a.len == b.len && groups[a.g].delayMs == groups[b.g].delayMs
  }

  ghost predicate AllInDoc(groups: seq<Group>, cs: seq<Claim>) {
    forall i {:trigger InDoc(groups, cs[i])} :: 0 <= i < |cs| ==> InDoc(groups, cs[i])
  }

  /** Position `q` is no better than the winner `c` found at position `p`. */
  ghost predicate Beaten(groups: seq<Group>, cs: seq<Claim>, c: Claim, p: nat, q: nat)
    requires q < |cs| && InDoc(groups, cs[q]) && InDoc(groups, c)
  {
    Weaker(groups, cs[q], c) || (Ties(groups, cs[q], c) && p <= q)
  }

  ghost predicate WinsAt(groups: seq<Group>, cs: seq<Claim>, c: Claim, p: nat)
    requires AllInDoc(groups, cs) && InDoc(groups, c)
  {
    && p < |cs| && cs[p] == c
    && forall q {:trigger cs[q]} :: 0 <= q < |cs| && cs[q].slug == c.slug && InDoc(groups, cs[q]) ==> Beaten(groups, cs, c, p, q)
  }

  /** `c` is the lexicographic maximum of (token length, delay) over the claims on its slug,
      earliest in the document among exact ties. */
  ghost predicate Governs(groups: seq<Group>, cs: seq<Claim>, c: Claim)
    requires AllInDoc(groups, cs)
  {
    InDoc(groups, c) && exists p :: WinsAt(groups, cs, c, p)
  }

  ghost predicate Claimed(cs: seq<Claim>, slug: string) {
    exists i :: 0 <= i < |cs| && cs[i].slug == slug
  }

  /** The claim table holds, for every claimed slug, the claim that governs it. */
  ghost predicate TableOk(groups: seq<Group>, cs: seq<Claim>, table: map<string, Claim>) {
    && AllInDoc(groups, cs)
    && forall s {:trigger s in table} :: (s in table <==> Claimed(cs, s)) && (s in table ==> table[s].slug == s && Governs(groups, cs, table[s]))
  }

  lemma GovernsUnique(groups: seq<Group>, cs: seq<Claim>, a: Claim, b: Claim)
    requires AllInDoc(groups, cs) && Governs(groups, cs, a) && Governs(groups, cs, b) && a.slug == b.slug
    ensures a == b
  {
    var p :| WinsAt(groups, cs, a, p);
    var q :| WinsAt(groups, cs, b, q);
    assert Beaten(groups, cs, a, p, q) && Beaten(groups, cs, b, q, p);
  }

  /** One more claim on a slug already in the table. */
  lemma Contest(groups: seq<Group>, cs: seq<Claim>, table: map<string, Claim>, d: Claim)
    requires TableOk(groups, cs, table) && InDoc(groups, d) && d.slug in table
    ensures var c := table[d.slug];
      TableOk(groups, cs + [d], if Weaker(groups, c, d) then table[d.slug := d] else table)
  {
    var c := table[d.slug];
    var cs' := cs + [d];
    var table' := if Weaker(groups, c, d) then table[d.slug := d] else table;
    forall i | 0 <= i < |cs'| ensures InDoc(groups, cs'[i]) {
      if i < |cs| { assert InDoc(groups, cs[i]); }
    }
    forall s ensures (s in table' <==> Claimed(cs', s)) && (s in table' ==> table'[s].slug == s && Governs(groups, cs', table'[s])) {
      assert s in table <==> Claimed(cs, s);
      ClaimedSnoc(cs, d, s);
      if s in table' {
        if s == d.slug && Weaker(groups, c, d) {
          NewWinner(groups, cs, c, d);
        } else {
          OldWinner(groups, cs, table[s], d);
        }
      }
    }
  }

  /** The first claim on a slug. */
  lemma FirstClaim(groups: seq<Group>, cs: seq<Claim>, table: map<string, Claim>, d: Claim)
    requires TableOk(groups, cs, table) && InDoc(groups, d) && d.slug !in table
    ensures TableOk(groups, cs + [d], table[d.slug := d])
  {
    var cs', table' := cs + [d], table[d.slug := d];
    forall i | 0 <= i < |cs'| ensures InDoc(groups, cs'[i]) {
      if i < |cs| { assert InDoc(groups, cs[i]); }
    }
    assert !Claimed(cs, d.slug);
    forall s ensures (s in table' <==> Claimed(cs', s)) && (s in table' ==> table'[s].slug == s && Governs(groups, cs', table'[s])) {
      assert s in table <==> Claimed(cs, s);
      ClaimedSnoc(cs, d, s);
      if s == d.slug {
        forall q | 0 <= q < |cs'| && cs'[q].slug == s ensures q == |cs| {
          if q < |cs| { assert Claimed(cs, s); }
        }
        assert WinsAt(groups, cs', d, |cs|);
      } else if s in table {
        OldWinner(groups, cs, table[s], d);
      }
    }
  }

  lemma ClaimedSnoc(cs: seq<Claim>, d: Claim, s: string)
    ensures Claimed(cs + [d], s) <==> Claimed(cs, s) || s == d.slug
  {
    var cs' := cs + [d];
    if Claimed(cs, s) {
      var i :| 0 <= i < |cs| && cs[i].slug == s;
      assert cs'[i].slug == s;
    }
    assert cs'[|cs|] == d;
  }

  lemma NewWinner(groups: seq<Group>, cs: seq<Claim>, c: Claim, d: Claim)
    requires AllInDoc(groups, cs) && AllInDoc(groups, cs + [d]) && Governs(groups, cs, c) && InDoc(groups, d)
    requires c.slug == d.slug && Weaker(groups, c, d)
    ensures Governs(groups, cs + [d], d)
  {
    var cs' := cs + [d];
    var p :| WinsAt(groups, cs, c, p);
    forall q | 0 <= q < |cs'| && cs'[q].slug == d.slug && InDoc(groups, cs'[q]) ensures Beaten(groups, cs', d, |cs|, q) {
      if q < |cs| {
        assert InDoc(groups, cs[q]) && Beaten(groups, cs, c, p, q);
      }
    }
    assert WinsAt(groups, cs', d, |cs|);
  }

  lemma OldWinner(groups: seq<Group>, cs: seq<Claim>, c: Claim, d: Claim)
    requires AllInDoc(groups, cs) && AllInDoc(groups, cs + [d]) && Governs(groups, cs, c) && InDoc(groups, d)
    requires c.slug == d.slug ==> !Weaker(groups, c, d)
    ensures Governs(groups, cs + [d], c)
  {
    var cs' := cs + [d];
    var p :| WinsAt(groups, cs, c, p);
    forall q | 0 <= q < |cs'| && cs'[q].slug == c.slug && InDoc(groups, cs'[q]) ensures Beaten(groups, cs', c, p, q) {
      if q < |cs| {
        assert InDoc(groups, cs[q]) && Beaten(groups, cs, c, p, q);
      }
    }
    assert WinsAt(groups, cs', c, p);
  }

  // ----- the walk --------------------------------------------------------------

  /** One claim against the table. */
  method Enter(groups: seq<Group>, d: Claim, table: map<string, Claim>, ghost cs: seq<Claim>)
      returns (table': map<string, Claim>)
    requires TableOk(groups, cs, table) && InDoc(groups, d)
    ensures TableOk(groups, cs + [d], table')
  {
    table' := table;
    if d.slug in table {
      var c := table[d.slug];
      assert Governs(groups, cs, c);
      Contest(groups, cs, table, d);
      if c.len > d.len { return; }
      if c.len == d.len && groups[d.g].delayMs <= groups[c.g].delayMs { return; }
    } else {
      FirstClaim(groups, cs, table, d);
    }
    table' := table[d.slug := d];
  }

  method EnterToken(groups: seq<Group>, g: nat, slugs: seq<string>, len: nat, table: map<string, Claim>, ghost cs: seq<Claim>)
      returns (table': map<string, Claim>)
    requires TableOk(groups, cs, table) && g < |groups|
    ensures TableOk(groups, cs + SlugClaims(slugs, |slugs|, g, len), table')
  {
    table' := table;
    assert cs + [] == cs;
    for s := 0 to |slugs|
      invariant TableOk(groups, cs + SlugClaims(slugs, s, g, len), table')
    {
      var d := Claim(slugs[s], g, len);
      ghost var seen := cs + SlugClaims(slugs, s, g, len);
      assert cs + SlugClaims(slugs, s + 1, g, len) == seen + [d];
      table' := Enter(groups, d, table', seen);
    }
  }

  method EnterGroup(groups: seq<Group>, g: nat, resolve: string -> seq<string>, table: map<string, Claim>, ghost cs: seq<Claim>)
      returns (table': map<string, Claim>)
    requires TableOk(groups, cs, table) && g < |groups|
    ensures TableOk(groups, cs + TokenClaims(groups[g].tokens, |groups[g].tokens|, g, resolve), table')
  {
    var tokens := groups[g].tokens;
    table' := table;
    assert cs + [] == cs;
    for u := 0 to |tokens|
      invariant TableOk(groups, cs + TokenClaims(tokens, u, g, resolve), table')
    {
      TokenStep(cs, tokens, u, g, resolve);
      table' := EnterOneToken(groups, g, tokens[u], resolve, table', cs + TokenClaims(tokens, u, g, resolve));
    }
  }

  lemma {:induction false} TokenStep(cs: seq<Claim>, tokens: seq<string>, u: nat, g: nat, resolve: string -> seq<string>)
    requires u < |tokens|
    ensures cs + TokenClaims(tokens, u + 1, g, resolve) == (cs + TokenClaims(tokens, u, g, resolve)) + OfToken(tokens[u], g, resolve)
  {}

  method EnterOneToken(groups: seq<Group>, g: nat, tok: string, resolve: string -> seq<string>,
                       table: map<string, Claim>, ghost cs: seq<Claim>)
      returns (table': map<string, Claim>)
    requires TableOk(groups, cs, table) && g < |groups|
    ensures TableOk(groups, cs + OfToken(tok, g, resolve), table')
  {
    table' := table;
    if tok == "" {
      assert cs + [] == cs;
    } else {
      table' := EnterToken(groups, g, resolve(tok), |tok|, table, cs);
    }
  }

  lemma {:induction false} GroupAdds(groups: seq<Group>, g: nat, resolve: string -> seq<string>)
    requires g < |groups|
    ensures var seen, tokens := ClaimsOf(groups, g, resolve), groups[g].tokens;
      ClaimsOf(groups, g + 1, resolve) == if groups[g].wildcard then seen else seen + TokenClaims(tokens, |tokens|, g, resolve)
  {}

  /** Longest token wins, per slug; a tie on length goes to the larger delay. */
  method ClaimWalk(groups: seq<Group>, resolve: string -> seq<string>) returns (table: map<string, Claim>)
    ensures TableOk(groups, ClaimsOf(groups, |groups|, resolve), table)
  {
    table := map[];
    for g := 0 to |groups|
      invariant TableOk(groups, ClaimsOf(groups, g, resolve), table)
    {
      GroupAdds(groups, g, resolve);
      if !groups[g].wildcard {
        table := EnterGroup(groups, g, resolve, table, ClaimsOf(groups, g, resolve));
      }
    }
  }

  // ----- order does not matter -------------------------------------------------

  /** The group resolves some token of length `len` to `slug`. */
  ghost predicate Names(grp: Group, resolve: string -> seq<string>, slug: string, len: nat) {
    !grp.wildcard && NamedIn(grp.tokens, |grp.tokens|, resolve, slug, len)
  }

  lemma {:induction false} InSlugClaims(slugs: seq<string>, n: nat, g: nat, len: nat, c: Claim)
    requires n <= |slugs|
    ensures c in SlugClaims(slugs, n, g, len) <==> c.g == g && c.len == len && c.slug in slugs[..n]
  {
    if n > 0 {
      InSlugClaims(slugs, n - 1, g, len, c);
      assert slugs[..n] == slugs[..n - 1] + [slugs[n - 1]];
    }
  }

  ghost predicate NamedIn(tokens: seq<string>, n: nat, resolve: string -> seq<string>, slug: string, len: nat)
    requires n <= |tokens|
  {
    exists u :: 0 <= u < n && tokens[u] != "" && |tokens[u]| == len && slug in resolve(tokens[u])
  }

  lemma {:induction false} NamedStep(tokens: seq<string>, n: nat, resolve: string -> seq<string>, slug: string, len: nat)
    requires 0 < n <= |tokens|
    ensures NamedIn(tokens, n, resolve, slug, len) <==>
      NamedIn(tokens, n - 1, resolve, slug, len)
      || (tokens[n - 1] != "" && |tokens[n - 1]| == len && slug in resolve(tokens[n - 1]))
  {}

  lemma {:induction false} InTokenClaims(tokens: seq<string>, n: nat, g: nat, resolve: string -> seq<string>, c: Claim)
    requires n <= |tokens|
    ensures c in TokenClaims(tokens, n, g, resolve) <==> c.g == g && NamedIn(tokens, n, resolve, c.slug, c.len)
  {
    if n > 0 {
      InTokenClaims(tokens, n - 1, g, resolve, c);
      NamedStep(tokens, n, resolve, c.slug, c.len);
      var tok := tokens[n - 1];
      var slugs := resolve(tok);
      InSlugClaims(slugs, |slugs|, g, |tok|, c);
      assert slugs[..|slugs|] == slugs;
    }
  }

  lemma {:induction false} InOfGroup(grp: Group, g: nat, resolve: string -> seq<string>, c: Claim)
    ensures c in OfGroup(grp, g, resolve) <==> c.g == g && Names(grp, resolve, c.slug, c.len)
  {
    InTokenClaims(grp.tokens, |grp.tokens|, g, resolve, c);
  }

  /** A claim is in the document's list exactly when its group names the slug so. */
  lemma {:induction false} InClaims(groups: seq<Group>, n: nat, resolve: string -> seq<string>, c: Claim)
    requires n <= |groups|
    ensures c in ClaimsOf(groups, n, resolve) <==> c.g < n && Names(groups[c.g], resolve, c.slug, c.len)
  {
    if n > 0 {
      var k := n - 1;
      InClaims(groups, k, resolve, c);
      InOfGroup(groups[k], k, resolve, c);
    }
  }

  /** The governing claim is at least as strong as any group's claim on the slug. */
  lemma {:induction false} StrongestClaim(groups: seq<Group>, resolve: string -> seq<string>, c: Claim, grp: Group, len: nat)
    requires var cs := ClaimsOf(groups, |groups|, resolve); AllInDoc(groups, cs) && Governs(groups, cs, c)
    requires grp in groups && Names(grp, resolve, c.slug, len)
    ensures len < c.len || (len == c.len && grp.delayMs <= groups[c.g].delayMs)
  {
    var cs := ClaimsOf(groups, |groups|, resolve);
    var g :| 0 <= g < |groups| && groups[g] == grp;
    var d := Claim(c.slug, g, len);
    InClaims(groups, |groups|, resolve, d);
    var q :| 0 <= q < |cs| && cs[q] == d;
    var p :| WinsAt(groups, cs, c, p);
    assert InDoc(groups, cs[q]) && Beaten(groups, cs, c, p, q);
  }

  /** Claims are listed group by group. */
  lemma {:induction false} GroupsInOrder(groups: seq<Group>, n: nat, resolve: string -> seq<string>)
    requires n <= |groups|
    ensures forall i, j :: 0 <= i <= j < |ClaimsOf(groups, n, resolve)| ==>
      ClaimsOf(groups, n, resolve)[i].g <= ClaimsOf(groups, n, resolve)[j].g
  {
    if n > 0 {
      var k := n - 1;
      GroupsInOrder(groups, k, resolve);
      var before, own := ClaimsOf(groups, k, resolve), OfGroup(groups[k], k, resolve);
      forall i | 0 <= i < |before| ensures before[i].g < k { InClaims(groups, k, resolve, before[i]); }
      forall j | 0 <= j < |own| ensures own[j].g == k { InOfGroup(groups[k], k, resolve, own[j]); }
    }
  }

  /** Of groups that claim a slug equally strongly, the first in the document governs. */
  lemma {:induction false} EarliestClaim(groups: seq<Group>, resolve: string -> seq<string>, c: Claim, g: nat)
    requires var cs := ClaimsOf(groups, |groups|, resolve); AllInDoc(groups, cs) && Governs(groups, cs, c)
    requires g < |groups| && Names(groups[g], resolve, c.slug, c.len) && groups[g].delayMs == groups[c.g].delayMs
    ensures c.g <= g
  {
    var cs := ClaimsOf(groups, |groups|, resolve);
    var d := Claim(c.slug, g, c.len);
    InClaims(groups, |groups|, resolve, d);
    var q :| 0 <= q < |cs| && cs[q] == d;
    var p :| WinsAt(groups, cs, c, p);
    assert InDoc(groups, cs[q]) && Beaten(groups, cs, c, p, q);
    GroupsInOrder(groups, |groups|, resolve);
  }

  /** Permuting the groups leaves the winning (length, delay) of every slug unchanged. */
  lemma {:induction false} OrderIrrelevant(groups: seq<Group>, groups': seq<Group>, resolve: string -> seq<string>,
                        table: map<string, Claim>, table': map<string, Claim>, slug: string)
    requires multiset(groups) == multiset(groups')
    requires TableOk(groups, ClaimsOf(groups, |groups|, resolve), table)
    requires TableOk(groups', ClaimsOf(groups', |groups'|, resolve), table')
    ensures slug in table <==> slug in table'
    ensures slug in table ==>
      var c, c' := table[slug], table'[slug];
      InDoc(groups, c) && InDoc(groups', c') && c.len == c'.len && groups[c.g].delayMs == groups'[c'.g].delayMs
  {
    SameMembers(groups, groups');
    if slug in table { TableMembers(groups, groups', resolve, table, table', slug); }
    if slug in table' { TableMembers(groups', groups, resolve, table', table, slug); }
    if slug in table {
      WinnerNamed(groups, resolve, table, slug);
      WinnerNamed(groups', resolve, table', slug);
      var c, c' := table[slug], table'[slug];
      StrongestClaim(groups, resolve, c, groups'[c'.g], c'.len);
      StrongestClaim(groups', resolve, c', groups[c.g], c.len);
    }
  }

  lemma SameMembers(a: seq<Group>, b: seq<Group>)
    requires multiset(a) == multiset(b)
    ensures forall x :: x in a <==> x in b
  {
    forall x ensures x in a <==> x in b {
      assert x in a <==> x in multiset(a);
      assert x in b <==> x in multiset(b);
    }
  }

  lemma {:induction false} WinnerNamed(groups: seq<Group>, resolve: string -> seq<string>, table: map<string, Claim>, slug: string)
    requires TableOk(groups, ClaimsOf(groups, |groups|, resolve), table) && slug in table
    ensures var c := table[slug];
      c.slug == slug && InDoc(groups, c) && groups[c.g] in groups && Names(groups[c.g], resolve, slug, c.len)
      && Governs(groups, ClaimsOf(groups, |groups|, resolve), c)
  {
    var cs, c := ClaimsOf(groups, |groups|, resolve), table[slug];
    var p :| WinsAt(groups, cs, c, p);
    assert c in cs;
    InClaims(groups, |groups|, resolve, c);
  }

  lemma {:induction false} TableMembers(groups: seq<Group>, groups': seq<Group>, resolve: string -> seq<string>,
                     table: map<string, Claim>, table': map<string, Claim>, slug: string)
    requires forall x :: x in groups ==> x in groups'
    requires TableOk(groups, ClaimsOf(groups, |groups|, resolve), table)
    requires TableOk(groups', ClaimsOf(groups', |groups'|, resolve), table')
    requires slug in table
    ensures slug in table'
  {
    WinnerNamed(groups, resolve, table, slug);
    var c := table[slug];
    var grp := groups[c.g];
    var g :| 0 <= g < |groups'| && groups'[g] == grp;
    var d := Claim(slug, g, c.len);
    InClaims(groups', |groups'|, resolve, d);
    var cs' := ClaimsOf(groups', |groups'|, resolve);
    var i :| 0 <= i < |cs'| && cs'[i] == d;
    assert Claimed(cs', slug);
  }
}
