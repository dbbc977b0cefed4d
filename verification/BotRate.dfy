/**
 Start-up resolution of bot rate limits for one virtual host: four passes over a slug table
 and the shared slot cursor, proved against one precedence rule.
 */
module BotRate {
  import opened Wrappers
  import opened Collections
  import opened SlotPool
  import opened RobotsClaims

  /** A configured rule. Specific and per-botgroup rules carry the slugs they resolved to. */
  datatype Entry =
    | Specific(slugs: seq<string>, limit: Limit)
    | PerBotgroup(name: string, slugs: seq<string>, limit: Limit)
    | Wildcard(limit: Limit)
    | GroupShared(name: string, limit: Limit)
    | GrandShared(limit: Limit)

  /** `off` declines the implicit robots.txt limits. */
  datatype Vhost = Vhost(off: bool, entries: seq<Entry>, groups: seq<Group>)

  /** A counter and what it counts. */
  datatype Holder = Holder(slot: nat, who: RateOwner, limit: Limit)

  datatype Verdict = Verdict(who: RateOwner, limit: Limit)

  /** Everything the precedence rule depends on: the virtual host's number, its rules and
      groups, the claim table, the effective wildcard and the directory rows. */
  datatype Ctx = Ctx(v: nat, entries: seq<Entry>, groups: seq<Group>, table: map<string, Claim>,
                     wild: Option<Limit>, known: seq<string>)

  // ----- the precedence rule ------------------------------------------------

  predicate Covers(e: Entry, slug: string) {
    e.Specific? && slug in e.slugs
  }

  predicate GroupCovers(e: Entry, slug: string) {
    e.PerBotgroup? && slug in e.slugs
  }

  /** Last of the first `n` entries that is specific and covers the slug, or -1. */
  function LastSpecific(es: seq<Entry>, n: nat, slug: string): (i: int)
    requires n <= |es|
    ensures -1 <= i < n && (i >= 0 ==> Covers(es[i], slug))
  {
    if n == 0 then -1 else if Covers(es[n - 1], slug) then n - 1 else LastSpecific(es, n - 1, slug)
  }

  /** First of the first `n` entries that is a per-bot botgroup rule covering the slug, or -1. */
  function FirstBotgroup(es: seq<Entry>, n: nat, slug: string): (i: int)
    requires n <= |es|
    ensures -1 <= i < n && (i >= 0 ==> GroupCovers(es[i], slug))
  {
    if n == 0 then -1
    else
      var r := FirstBotgroup(es, n - 1, slug);
      if r >= 0 then r else if GroupCovers(es[n - 1], slug) then n - 1 else -1
  }

  /** How far the passes have come: robots groups, specific entries, botgroup entries, slugs of
      the current botgroup entry, wildcard rows, aggregates, group totals, grand total. */
  datatype Progress = Progress(nr: nat, ns: nat, nb: nat, nj: nat, nw: nat, agg: nat, ng: nat, grand: bool)

  ghost predicate Within(ctx: Ctx, p: Progress) {
    && p.nr <= |ctx.groups| && p.ns <= |ctx.entries| && p.nb <= |ctx.entries| && p.nw <= |ctx.known|
    && p.ng <= |ctx.entries| && p.agg <= 4
    && (p.nj > 0 ==> p.nb < |ctx.entries| && ctx.entries[p.nb].PerBotgroup? && p.nj <= |ctx.entries[p.nb].slugs|)
  }

  function Complete(ctx: Ctx): Progress {
    Progress(|ctx.groups|, |ctx.entries|, |ctx.entries|, 0, |ctx.known|, 4, |ctx.entries|, true)
  }

  function SpecificV(ctx: Ctx, n: nat, slug: string): Option<Verdict>
    requires n <= |ctx.entries|
  {
    var i := LastSpecific(ctx.entries, n, slug);
    if i >= 0 then Some(Verdict(Directive(i), ctx.entries[i].limit)) else None
  }

  /** A named group has a limit of its own when it has a delay, or when there is a wildcard
      for it to be exempt from. */
  predicate Limits(ctx: Ctx, g: nat)
    requires g < |ctx.groups|
  {
    ctx.groups[g].delayMs > 0 || ctx.wild.Some?
  }

  function RobotsV(ctx: Ctx, n: nat, slug: string): Option<Verdict>
    requires n <= |ctx.groups|
  {
    if slug in ctx.table && ctx.table[slug].g < n && Limits(ctx, ctx.table[slug].g) then
      var g := ctx.table[slug].g;
      Some(Verdict(RobotsGroup(g), Limit(1, ctx.groups[g].delayMs, ctx.groups[g].observe)))
    else None
  }

  function BotgroupV(ctx: Ctx, n: nat, j: nat, slug: string): Option<Verdict>
    requires n <= |ctx.entries|
    requires j > 0 ==> n < |ctx.entries| && ctx.entries[n].PerBotgroup? && j <= |ctx.entries[n].slugs|
  {
    var r := FirstBotgroup(ctx.entries, n, slug);
    var i := if r >= 0 then r else if j > 0 && slug in ctx.entries[n].slugs[..j] then n else -1;
    if i >= 0 then Some(Verdict(BotgroupSlug(i, slug), ctx.entries[i].limit)) else None
  }

  function WildV(ctx: Ctx, k: nat, slug: string): Option<Verdict>
    requires k <= |ctx.known|
  {
    if ctx.wild.Some? && slug in ctx.known[..k] then Some(Verdict(WildcardSlug(slug), ctx.wild.value)) else None
  }

  /** The verdict on a slug by the rules processed so far. At `Complete` this is the rule:
      the last specific directive covering it, else its governing robots group, else its own
      counter under the first botgroup rule, else its own wildcard counter. */
  ghost function Rule(ctx: Ctx, p: Progress, slug: string): Option<Verdict>
    requires Within(ctx, p)
  {
    var s := SpecificV(ctx, p.ns, slug);
    var r := RobotsV(ctx, p.nr, slug);
    var b := BotgroupV(ctx, p.nb, p.nj, slug);
    if s.Some? then s else if r.Some? then r else if b.Some? then b else WildV(ctx, p.nw, slug)
  }

  /** Group `g` governs some slug and has a limit. */
  ghost predicate Active(ctx: Ctx, g: nat) {
    g < |ctx.groups| && Limits(ctx, g) && exists s :: s in ctx.table && ctx.table[s].g == g
  }

  ghost predicate Names(ctx: Ctx, p: Progress, slug: string, who: RateOwner)
    requires Within(ctx, p)
  {
    Rule(ctx, p, slug).Some? && Rule(ctx, p, slug).value.who == who
  }

  /** The counters the rules processed so far call for. */
  ghost predicate Issued(ctx: Ctx, p: Progress, who: RateOwner)
    requires Within(ctx, p)
  {
    match who
    case RobotsGroup(g) => g < p.nr && Active(ctx, g)
    case Directive(i) => i < p.ns && ctx.entries[i].Specific?
    case BotgroupSlug(_, slug) => Names(ctx, p, slug, who)
    case WildcardSlug(slug) => Names(ctx, p, slug, who)
    case UnknownBot => ctx.wild.Some? && p.agg >= 1
    case NoUa => ctx.wild.Some? && p.agg >= 2
    case FakeBot => ctx.wild.Some? && p.agg >= 3
    case Fallback => ctx.wild.Some? && p.agg >= 4
    case GroupTotal(name) => exists i :: 0 <= i < p.ng && ctx.entries[i] == GroupShared(name, ctx.entries[i].limit)
    case GrandTotal => p.grand && exists i :: 0 <= i < |ctx.entries| && ctx.entries[i].GrandShared?
  }

  // ----- what a partly built table satisfies -----------------------------------

  ghost predicate OwnedBy(ctx: Ctx, ledger: seq<Owner>, h: Holder) {
    h.slot < |ledger| && ledger[h.slot] == BotRate(ctx.v, h.who)
  }

  ghost predicate SlugOk(ctx: Ctx, p: Progress, bySlug: map<string, Holder>, slug: string)
    requires Within(ctx, p)
  {
    match Rule(ctx, p, slug)
    case None => slug !in bySlug
    case Some(v) => slug in bySlug && bySlug[slug].who == v.who && bySlug[slug].limit == v.limit
  }

  ghost predicate Matches(ctx: Ctx, p: Progress, bySlug: map<string, Holder>)
    requires Within(ctx, p)
  {
    forall slug {:trigger SlugOk(ctx, p, bySlug, slug)} :: SlugOk(ctx, p, bySlug, slug)
  }

  /** `who` was needed and got no slot. */
  ghost predicate Missed(ctx: Ctx, ledger: seq<Owner>, who: RateOwner) {
    Issued(ctx, Complete(ctx), who) && BotRate(ctx.v, who) !in ledger
  }

  ghost predicate NewOwner(ctx: Ctx, p: Progress, o: Owner)
    requires Within(ctx, p)
  {
    o.BotRate? && o.vhost == ctx.v && Issued(ctx, p, o.who)
  }

  /** The slots handed out since `base` are exactly the counters called for, and the table is
      exactly the rule, unless the pool ran out; then it is full and somebody went without. */
  ghost predicate Built(ctx: Ctx, p: Progress, bySlug: map<string, Holder>,
                        base: seq<Owner>, ledger: seq<Owner>, size: nat, ok: bool) {
    && Within(ctx, p) && base <= ledger && |ledger| <= size
    && (forall w {:trigger BotRate(ctx.v, w)} :: BotRate(ctx.v, w) !in base)
    && (forall i {:trigger ledger[i]} :: |base| <= i < |ledger| ==> NewOwner(ctx, p, ledger[i]))
    && (forall s {:trigger s in bySlug} :: s in bySlug ==> OwnedBy(ctx, ledger, bySlug[s]))
    && (ok ==> Matches(ctx, p, bySlug))
    && (ok ==> forall w {:trigger Issued(ctx, p, w)} :: Issued(ctx, p, w) ==> BotRate(ctx.v, w) in ledger)
    && (!ok ==> |ledger| == size && exists w :: Missed(ctx, ledger, w))
  }

  lemma NotYet(ctx: Ctx, p: Progress, bySlug: map<string, Holder>, base: seq<Owner>, ledger: seq<Owner>, size: nat, ok: bool, who: RateOwner)
    requires Built(ctx, p, bySlug, base, ledger, size, ok) && !Issued(ctx, p, who)
    ensures BotRate(ctx.v, who) !in ledger
  {
    forall i | 0 <= i < |ledger| ensures ledger[i] != BotRate(ctx.v, who) {
      if i < |base| {
        assert base[i] in base;
      } else {
        assert NewOwner(ctx, p, ledger[i]);
      }
    }
  }

  /** The rules called for `who` next and the pool was full. */
  lemma RanOut(ctx: Ctx, p: Progress, p': Progress, bySlug: map<string, Holder>,
               base: seq<Owner>, ledger: seq<Owner>, size: nat, ok: bool, who: RateOwner)
    requires Built(ctx, p, bySlug, base, ledger, size, ok) && Within(ctx, p') && |ledger| == size
    requires forall w {:trigger Issued(ctx, p', w)} :: Issued(ctx, p, w) ==> Issued(ctx, p', w)
    requires ok ==> !Issued(ctx, p, who) && Issued(ctx, Complete(ctx), who)
    ensures Built(ctx, p', bySlug, base, ledger, size, false)
  {
    forall i | |base| <= i < |ledger| ensures NewOwner(ctx, p', ledger[i]) {
      assert NewOwner(ctx, p, ledger[i]);
      assert Issued(ctx, p', ledger[i].who);
    }
    if ok {
      NotYet(ctx, p, bySlug, base, ledger, size, ok, who);
      assert Missed(ctx, ledger, who);
    }
  }

  // ----- pass 0: robots.txt groups ------------------------------------------------

  function RobotsP(g: nat): Progress { Progress(g, 0, 0, 0, 0, 0, 0, false) }

  function SpecificP(ctx: Ctx, n: nat): Progress { Progress(|ctx.groups|, n, 0, 0, 0, 0, 0, false) }

  function BotgroupP(ctx: Ctx, n: nat, j: nat): Progress { Progress(|ctx.groups|, |ctx.entries|, n, j, 0, 0, 0, false) }

  function WildP(ctx: Ctx, k: nat): Progress { Progress(|ctx.groups|, |ctx.entries|, |ctx.entries|, 0, k, 0, 0, false) }

  function TotalsP(ctx: Ctx, agg: nat, ng: nat, grand: bool): Progress {
    Progress(|ctx.groups|, |ctx.entries|, |ctx.entries|, 0, |ctx.known|, agg, ng, grand)
  }

  /** The claim table speaks of named groups of the document. */
  ghost predicate TableInDoc(ctx: Ctx) {
    forall s :: s in ctx.table ==> ctx.table[s].g < |ctx.groups| && !ctx.groups[ctx.table[s].g].wildcard
  }

  /** Slugs the group won, in any order. */
  method WonBy(table: map<string, Claim>, g: nat) returns (won: seq<string>)
    ensures forall s :: s in won <==> s in table && table[s].g == g
  {
    won := [];
    var todo := table.Keys;
    while todo != {}
      invariant todo <= table.Keys
      invariant forall s :: s in won <==> s in table && s !in todo && table[s].g == g
      decreases |todo|
    {
      var s :| s in todo;
      todo := todo - {s};
      if table[s].g == g { won := won + [s]; }
    }
  }

  ghost predicate Assigned(m: map<string, Holder>, slugs: seq<string>, h: Holder, m': map<string, Holder>) {
    forall s {:trigger s in m'} :: (s in m' <==> s in m || s in slugs) && (s in m' ==> m'[s] == if s in slugs then h else m[s])
  }

  /** Points every listed slug at one holder, overwriting what was there. */
  method AssignAll(m: map<string, Holder>, slugs: seq<string>, h: Holder) returns (m': map<string, Holder>)
    ensures Assigned(m, slugs, h, m')
  {
    m' := m;
    for j := 0 to |slugs|
      invariant Assigned(m, slugs[..j], h, m')
    {
      assert slugs[..j + 1] == slugs[..j] + [slugs[j]];
      m' := m'[slugs[j] := h];
    }
    assert slugs[..|slugs|] == slugs;
  }

  lemma RobotsStep(ctx: Ctx, g: nat)
    requires g < |ctx.groups|
    ensures forall w {:trigger Issued(ctx, RobotsP(g + 1), w)} ::
      Issued(ctx, RobotsP(g + 1), w) <==> Issued(ctx, RobotsP(g), w) || (w == RobotsGroup(g) && Active(ctx, g))
    ensures forall s {:trigger Rule(ctx, RobotsP(g + 1), s)} ::
      Rule(ctx, RobotsP(g + 1), s) == (
        if s in ctx.table && ctx.table[s].g == g && Limits(ctx, g)
        then Some(Verdict(RobotsGroup(g), Limit(1, ctx.groups[g].delayMs, ctx.groups[g].observe)))
        else Rule(ctx, RobotsP(g), s))
  {}

  /** One table update that serves exactly the slugs whose verdict changed. */
  lemma MatchesAssigned(ctx: Ctx, p: Progress, p': Progress, m: map<string, Holder>, m': map<string, Holder>,
                        slugs: seq<string>, h: Holder)
    requires Within(ctx, p) && Within(ctx, p') && Matches(ctx, p, m) && Assigned(m, slugs, h, m')
    requires forall s {:trigger Rule(ctx, p', s)} ::
      Rule(ctx, p', s) == if s in slugs then Some(Verdict(h.who, h.limit)) else Rule(ctx, p, s)
    ensures Matches(ctx, p', m')
  {
    forall s ensures SlugOk(ctx, p', m', s) {
      assert SlugOk(ctx, p, m, s);
      assert s in m' <==> s in m || s in slugs;
    }
  }

  lemma MatchesSame(ctx: Ctx, p: Progress, p': Progress, m: map<string, Holder>)
    requires Within(ctx, p) && Within(ctx, p') && Matches(ctx, p, m)
    requires forall s {:trigger Rule(ctx, p', s)} :: Rule(ctx, p', s) == Rule(ctx, p, s)
    ensures Matches(ctx, p', m)
  {
    forall s ensures SlugOk(ctx, p', m, s) { assert SlugOk(ctx, p, m, s); }
  }

  /** Allocates a counter for `who` and points `slugs` at it. */
  method Allocate(ctx: Ctx, pool: Pool, who: RateOwner, limit: Limit, slugs: seq<string>, m: map<string, Holder>, ok: bool,
                  ghost p: Progress, ghost p': Progress, ghost base: seq<Owner>)
      returns (m': map<string, Holder>, ok': bool)
    requires pool.Valid() && Built(ctx, p, m, base, pool.ledger, pool.size, ok) && Within(ctx, p')
    requires forall w {:trigger Issued(ctx, p', w)} :: Issued(ctx, p, w) ==> Issued(ctx, p', w)
    requires ok ==> forall w {:trigger Issued(ctx, p', w)} :: Issued(ctx, p', w) <==> Issued(ctx, p, w) || w == who
    requires ok ==> !Issued(ctx, p, who) && Issued(ctx, Complete(ctx), who)
    requires ok ==> forall s {:trigger Rule(ctx, p', s)} ::
      Rule(ctx, p', s) == if s in slugs then Some(Verdict(who, limit)) else Rule(ctx, p, s)
    modifies pool
    ensures pool.Valid() && Built(ctx, p', m', base, pool.ledger, pool.size, ok')
    ensures ok' == (ok && old(|pool.ledger|) < pool.size)
  {
    ghost var ledger := pool.ledger;
    if ok { NotYet(ctx, p, m, base, ledger, pool.size, ok, who); }
    var slot := pool.Take(BotRate(ctx.v, who));
    match slot
    case None =>
      RanOut(ctx, p, p', m, base, ledger, pool.size, ok, who);
      m', ok' := m, false;
    case Some(n) =>
      var h := Holder(n, who, limit);
      m' := AssignAll(m, slugs, h);
      ok' := ok;
      if ok { MatchesAssigned(ctx, p, p', m, m', slugs, h); }
  }

  /** Pass 0: one counter per winning group that has something to limit or to be exempt from. */
  method PassRobots(ctx: Ctx, pool: Pool) returns (m: map<string, Holder>, ok: bool)
    requires pool.Valid() && TableInDoc(ctx)
    requires forall w {:trigger BotRate(ctx.v, w)} :: BotRate(ctx.v, w) !in pool.ledger
    modifies pool
    ensures pool.Valid() && Built(ctx, RobotsP(|ctx.groups|), m, old(pool.ledger), pool.ledger, pool.size, ok)
  {
    m, ok := map[], true;
    for g := 0 to |ctx.groups|
      invariant pool.Valid() && Built(ctx, RobotsP(g), m, old(pool.ledger), pool.ledger, pool.size, ok)
    {
      m, ok := OneGroup(ctx, pool, g, m, ok, old(pool.ledger));
    }
  }

  method OneGroup(ctx: Ctx, pool: Pool, g: nat, m0: map<string, Holder>, ok0: bool, ghost base: seq<Owner>)
      returns (m: map<string, Holder>, ok: bool)
    requires pool.Valid() && TableInDoc(ctx) && g < |ctx.groups|
    requires Built(ctx, RobotsP(g), m0, base, pool.ledger, pool.size, ok0)
    modifies pool
    ensures pool.Valid() && Built(ctx, RobotsP(g + 1), m, base, pool.ledger, pool.size, ok)
  {
    ghost var p, p' := RobotsP(g), RobotsP(g + 1);
    m, ok := m0, ok0;
    RobotsStep(ctx, g);
    var won := WonBy(ctx.table, g);
    if ctx.groups[g].wildcard || won == [] || !Limits(ctx, g) {
      assert forall s :: s in ctx.table && ctx.table[s].g == g ==> s in won;
      if ok {
        forall s ensures Rule(ctx, p', s) == Rule(ctx, p, s) { assert s !in won || !Limits(ctx, g); }
        MatchesSame(ctx, p, p', m);
      }
    } else {
      assert won[0] in won;
      m, ok := Allocate(ctx, pool, RobotsGroup(g), Limit(1, ctx.groups[g].delayMs, ctx.groups[g].observe), won, m, ok,
                        p, p', base);
    }
  }

  // ----- pass 1: specific directives ----------------------------------------------

  lemma SpecificStep(ctx: Ctx, n: nat)
    requires n < |ctx.entries|
    ensures forall w {:trigger Issued(ctx, SpecificP(ctx, n + 1), w)} ::
      Issued(ctx, SpecificP(ctx, n + 1), w) <==>
        Issued(ctx, SpecificP(ctx, n), w) || (w == Directive(n) && ctx.entries[n].Specific?)
    ensures forall s {:trigger Rule(ctx, SpecificP(ctx, n + 1), s)} ::
      Rule(ctx, SpecificP(ctx, n + 1), s) == (
        if Covers(ctx.entries[n], s) then Some(Verdict(Directive(n), ctx.entries[n].limit))
        else Rule(ctx, SpecificP(ctx, n), s))
  {}

  /** Pass 1: one counter per specific directive; a later one overwrites an earlier one. */
  method PassSpecific(ctx: Ctx, pool: Pool, m0: map<string, Holder>, ok0: bool, ghost base: seq<Owner>)
      returns (m: map<string, Holder>, ok: bool)
    requires pool.Valid() && Built(ctx, SpecificP(ctx, 0), m0, base, pool.ledger, pool.size, ok0)
    modifies pool
    ensures pool.Valid() && Built(ctx, SpecificP(ctx, |ctx.entries|), m, base, pool.ledger, pool.size, ok)
  {
    m, ok := m0, ok0;
    for n := 0 to |ctx.entries|
      invariant pool.Valid() && Built(ctx, SpecificP(ctx, n), m, base, pool.ledger, pool.size, ok)
    {
      m, ok := OneEntry(ctx, pool, n, m, ok, base);
    }
  }

  method OneEntry(ctx: Ctx, pool: Pool, n: nat, m0: map<string, Holder>, ok0: bool, ghost base: seq<Owner>)
      returns (m: map<string, Holder>, ok: bool)
    requires pool.Valid() && n < |ctx.entries| && Built(ctx, SpecificP(ctx, n), m0, base, pool.ledger, pool.size, ok0)
    modifies pool
    ensures pool.Valid() && Built(ctx, SpecificP(ctx, n + 1), m, base, pool.ledger, pool.size, ok)
  {
    ghost var p, p' := SpecificP(ctx, n), SpecificP(ctx, n + 1);
    m, ok := m0, ok0;
    SpecificStep(ctx, n);
    var e := ctx.entries[n];
    if e.Specific? {
      m, ok := Allocate(ctx, pool, Directive(n), e.limit, e.slugs, m, ok, p, p', base);
    } else {
      if ok { MatchesSame(ctx, p, p', m); }
    }
  }

  lemma {:induction false} FirstBotgroupGrows(es: seq<Entry>, n: nat, k: nat, slug: string)
    requires n <= k <= |es| && FirstBotgroup(es, n, slug) >= 0
    ensures FirstBotgroup(es, k, slug) == FirstBotgroup(es, n, slug)
  {
    if n < k { FirstBotgroupGrows(es, n, k - 1, slug); }
  }

  lemma BotgroupStep(ctx: Ctx, n: nat, j: nat)
    requires n < |ctx.entries| && ctx.entries[n].PerBotgroup? && j < |ctx.entries[n].slugs|
    ensures var p, p', slug := BotgroupP(ctx, n, j), BotgroupP(ctx, n, j + 1), ctx.entries[n].slugs[j];
      && (forall s {:trigger Rule(ctx, p', s)} :: Rule(ctx, p', s) == (
            if s == slug && Rule(ctx, p, s) == None then Some(Verdict(BotgroupSlug(n, s), ctx.entries[n].limit))
            else Rule(ctx, p, s)))
      && (forall w {:trigger Issued(ctx, p', w)} ::
            Issued(ctx, p', w) <==> Issued(ctx, p, w) || (w == BotgroupSlug(n, slug) && Rule(ctx, p, slug) == None))
  {
    var p, p', slug := BotgroupP(ctx, n, j), BotgroupP(ctx, n, j + 1), ctx.entries[n].slugs[j];
    assert ctx.entries[n].slugs[..j + 1] == ctx.entries[n].slugs[..j] + [slug];
    forall s ensures Rule(ctx, p', s) == (
            if s == slug && Rule(ctx, p, s) == None then Some(Verdict(BotgroupSlug(n, s), ctx.entries[n].limit))
            else Rule(ctx, p, s)) {}
  }

  /** Past the last slug of an entry the rule is the same read either way. */
  lemma BotgroupNext(ctx: Ctx, n: nat, j: nat)
    requires n < |ctx.entries|
    requires if ctx.entries[n].PerBotgroup? then j == |ctx.entries[n].slugs| else j == 0
    ensures forall s {:trigger Rule(ctx, BotgroupP(ctx, n + 1, 0), s)} ::
      Rule(ctx, BotgroupP(ctx, n + 1, 0), s) == Rule(ctx, BotgroupP(ctx, n, j), s)
    ensures forall w {:trigger Issued(ctx, BotgroupP(ctx, n + 1, 0), w)} ::
      Issued(ctx, BotgroupP(ctx, n + 1, 0), w) <==> Issued(ctx, BotgroupP(ctx, n, j), w)
  {
    if ctx.entries[n].PerBotgroup? {
      assert ctx.entries[n].slugs[..j] == ctx.entries[n].slugs;
    }
    forall s ensures Rule(ctx, BotgroupP(ctx, n + 1, 0), s) == Rule(ctx, BotgroupP(ctx, n, j), s) {}
  }

  /** Leaving an entry early only ever asks for more. */
  lemma BotgroupAbandon(ctx: Ctx, n: nat, j: nat)
    requires n < |ctx.entries| && ctx.entries[n].PerBotgroup? && j <= |ctx.entries[n].slugs|
    ensures forall w {:trigger Issued(ctx, BotgroupP(ctx, n + 1, 0), w)} ::
      Issued(ctx, BotgroupP(ctx, n, j), w) ==> Issued(ctx, BotgroupP(ctx, n + 1, 0), w)
  {
    forall s | Rule(ctx, BotgroupP(ctx, n, j), s).Some?
      ensures Rule(ctx, BotgroupP(ctx, n + 1, 0), s) == Rule(ctx, BotgroupP(ctx, n, j), s) {}
  }

  /** A botgroup counter once called for stays called for. */
  lemma BotgroupKept(ctx: Ctx, n: nat, j: nat, slug: string)
    requires n < |ctx.entries| && ctx.entries[n].PerBotgroup? && j < |ctx.entries[n].slugs| && slug == ctx.entries[n].slugs[j]
    requires Rule(ctx, BotgroupP(ctx, n, j), slug) == None
    ensures Issued(ctx, Complete(ctx), BotgroupSlug(n, slug))
  {
    assert FirstBotgroup(ctx.entries, n, slug) == -1;
    FirstBotgroupGrows(ctx.entries, n + 1, |ctx.entries|, slug);
  }

  /** Pass 2: each slug still unmapped gets its own counter under the first botgroup rule
      that covers it. An exhausted pool ends the entry. */
  method PassBotgroup(ctx: Ctx, pool: Pool, m0: map<string, Holder>, ok0: bool, ghost base: seq<Owner>)
      returns (m: map<string, Holder>, ok: bool)
    requires pool.Valid() && Built(ctx, SpecificP(ctx, |ctx.entries|), m0, base, pool.ledger, pool.size, ok0)
    modifies pool
    ensures pool.Valid() && Built(ctx, BotgroupP(ctx, |ctx.entries|, 0), m, base, pool.ledger, pool.size, ok)
  {
    m, ok := m0, ok0;
    assert SpecificP(ctx, |ctx.entries|) == BotgroupP(ctx, 0, 0);
    for n := 0 to |ctx.entries|
      invariant pool.Valid() && Built(ctx, BotgroupP(ctx, n, 0), m, base, pool.ledger, pool.size, ok)
    {
      if ctx.entries[n].PerBotgroup? {
        m, ok := EntrySlugs(ctx, pool, n, m, ok, base);
      } else {
        BotgroupNext(ctx, n, 0);
        if ok { MatchesSame(ctx, BotgroupP(ctx, n, 0), BotgroupP(ctx, n + 1, 0), m); }
      }
    }
  }

  method EntrySlugs(ctx: Ctx, pool: Pool, n: nat, m0: map<string, Holder>, ok0: bool, ghost base: seq<Owner>)
      returns (m: map<string, Holder>, ok: bool)
    requires n < |ctx.entries| && ctx.entries[n].PerBotgroup?
    requires pool.Valid() && Built(ctx, BotgroupP(ctx, n, 0), m0, base, pool.ledger, pool.size, ok0)
    modifies pool
    ensures pool.Valid() && Built(ctx, BotgroupP(ctx, n + 1, 0), m, base, pool.ledger, pool.size, ok)
  {
    m, ok := m0, ok0;
    var e := ctx.entries[n];
    for j := 0 to |e.slugs|
      invariant pool.Valid() && Built(ctx, BotgroupP(ctx, n, j), m, base, pool.ledger, pool.size, ok)
    {
      ghost var p, p' := BotgroupP(ctx, n, j), BotgroupP(ctx, n, j + 1);
      var slug := e.slugs[j];
      BotgroupStep(ctx, n, j);
      if ok { assert SlugOk(ctx, p, m, slug); }
      if slug in m {
        if ok { MatchesSame(ctx, p, p', m); }
      } else {
        if ok { BotgroupKept(ctx, n, j, slug); }
        m, ok := Allocate(ctx, pool, BotgroupSlug(n, slug), e.limit, [slug], m, ok, p, p', base);
        if !ok {
          BotgroupAbandon(ctx, n, j + 1);
          return;
        }
      }
    }
    ghost var p, p' := BotgroupP(ctx, n, |e.slugs|), BotgroupP(ctx, n + 1, 0);
    BotgroupNext(ctx, n, |e.slugs|);
    if ok { MatchesSame(ctx, p, p', m); }
  }

  // ----- pass 3: the wildcard ----------------------------------------------------------

  lemma WildStep(ctx: Ctx, k: nat)
    requires k < |ctx.known| && ctx.wild.Some?
    ensures var p, p', slug := WildP(ctx, k), WildP(ctx, k + 1), ctx.known[k];
      && (forall s {:trigger Rule(ctx, p', s)} :: Rule(ctx, p', s) == (
            if s == slug && Rule(ctx, p, s) == None then Some(Verdict(WildcardSlug(s), ctx.wild.value))
            else Rule(ctx, p, s)))
      && (forall w {:trigger Issued(ctx, p', w)} ::
            Issued(ctx, p', w) <==> Issued(ctx, p, w) || (w == WildcardSlug(slug) && Rule(ctx, p, slug) == None))
  {
    var p, p', slug := WildP(ctx, k), WildP(ctx, k + 1), ctx.known[k];
    assert ctx.known[..k + 1] == ctx.known[..k] + [slug];
    forall s ensures Rule(ctx, p', s) == (
            if s == slug && Rule(ctx, p, s) == None then Some(Verdict(WildcardSlug(s), ctx.wild.value))
            else Rule(ctx, p, s)) {}
  }

  lemma WildRest(ctx: Ctx, k: nat)
    requires k <= |ctx.known|
    ensures forall w {:trigger Issued(ctx, WildP(ctx, |ctx.known|), w)} ::
      Issued(ctx, WildP(ctx, k), w) ==> Issued(ctx, WildP(ctx, |ctx.known|), w)
    ensures ctx.wild == None ==>
      && (forall s {:trigger Rule(ctx, WildP(ctx, |ctx.known|), s)} ::
            Rule(ctx, WildP(ctx, |ctx.known|), s) == Rule(ctx, WildP(ctx, k), s))
      && (forall w {:trigger Issued(ctx, WildP(ctx, |ctx.known|), w)} ::
            Issued(ctx, WildP(ctx, |ctx.known|), w) ==> Issued(ctx, WildP(ctx, k), w))
  {
    forall s | Rule(ctx, WildP(ctx, k), s).Some?
      ensures Rule(ctx, WildP(ctx, |ctx.known|), s) == Rule(ctx, WildP(ctx, k), s)
    {
      assert forall x :: x in ctx.known[..k] ==> x in ctx.known[..|ctx.known|];
    }
  }

  lemma WildKept(ctx: Ctx, k: nat)
    requires k < |ctx.known| && ctx.wild.Some? && Rule(ctx, WildP(ctx, k), ctx.known[k]) == None
    ensures Issued(ctx, Complete(ctx), WildcardSlug(ctx.known[k]))
  {
    assert ctx.known[k] in ctx.known[..|ctx.known|];
  }

  /** Pass 3: with a wildcard, every directory slug still unmapped gets its own counter. */
  method PassWildcard(ctx: Ctx, pool: Pool, m0: map<string, Holder>, ok0: bool, ghost base: seq<Owner>)
      returns (m: map<string, Holder>, ok: bool)
    requires pool.Valid() && Built(ctx, BotgroupP(ctx, |ctx.entries|, 0), m0, base, pool.ledger, pool.size, ok0)
    modifies pool
    ensures pool.Valid() && Built(ctx, WildP(ctx, |ctx.known|), m, base, pool.ledger, pool.size, ok)
  {
    m, ok := m0, ok0;
    assert BotgroupP(ctx, |ctx.entries|, 0) == WildP(ctx, 0);
    if ctx.wild == None {
      WildRest(ctx, 0);
      if ok { MatchesSame(ctx, WildP(ctx, 0), WildP(ctx, |ctx.known|), m); }
    } else {
      m, ok := WildRows(ctx, pool, m, ok, base);
    }
  }

  method WildRows(ctx: Ctx, pool: Pool, m0: map<string, Holder>, ok0: bool, ghost base: seq<Owner>)
      returns (m: map<string, Holder>, ok: bool)
    requires ctx.wild.Some? && pool.Valid() && Built(ctx, WildP(ctx, 0), m0, base, pool.ledger, pool.size, ok0)
    modifies pool
    ensures pool.Valid() && Built(ctx, WildP(ctx, |ctx.known|), m, base, pool.ledger, pool.size, ok)
  {
    m, ok := m0, ok0;
    for k := 0 to |ctx.known|
      invariant pool.Valid() && Built(ctx, WildP(ctx, k), m, base, pool.ledger, pool.size, ok)
    {
      ghost var p, p' := WildP(ctx, k), WildP(ctx, k + 1);
      var slug := ctx.known[k];
      WildStep(ctx, k);
      if ok { assert SlugOk(ctx, p, m, slug); }
      if slug in m {
        if ok { MatchesSame(ctx, p, p', m); }
      } else {
        if ok { WildKept(ctx, k); }
        m, ok := Allocate(ctx, pool, WildcardSlug(slug), ctx.wild.value, [slug], m, ok, p, p', base);
        if !ok {
          WildRest(ctx, k + 1);
          return;
        }
      }
    }
  }

  // ----- aggregates and shared tiers -----------------------------------------------------

  /** The four wildcard aggregates, one botgroup total per name, the grand total. */
  datatype Shared = Shared(unknownBot: Option<Holder>, noUa: Option<Holder>, fakeBot: Option<Holder>,
                           fallback: Option<Holder>, groupTotals: map<string, Holder>, grand: Option<Holder>)

  ghost predicate Rests(ctx: Ctx, ledger: seq<Owner>, h: Option<Holder>, who: RateOwner, limit: Option<Limit>, ok: bool) {
    && (h.Some? ==> OwnedBy(ctx, ledger, h.value) && h.value.who == who && Some(h.value.limit) == limit)
    && (ok ==> (h.Some? <==> limit.Some?))
  }

  /** A counter that maps no slug. */
  method AllocateShared(ctx: Ctx, pool: Pool, who: RateOwner, limit: Limit, m: map<string, Holder>, ok: bool,
                        ghost p: Progress, ghost p': Progress, ghost base: seq<Owner>)
      returns (h: Option<Holder>, ok': bool)
    requires pool.Valid() && Built(ctx, p, m, base, pool.ledger, pool.size, ok) && Within(ctx, p')
    requires forall w {:trigger Issued(ctx, p', w)} :: Issued(ctx, p', w) <==> Issued(ctx, p, w) || w == who
    requires ok ==> !Issued(ctx, p, who) && Issued(ctx, Complete(ctx), who)
    requires forall s {:trigger Rule(ctx, p', s)} :: Rule(ctx, p', s) == Rule(ctx, p, s)
    modifies pool
    ensures pool.Valid() && Built(ctx, p', m, base, pool.ledger, pool.size, ok')
    ensures old(pool.ledger) <= pool.ledger && (ok' ==> ok) && (h.Some? ==> ok)
    ensures Rests(ctx, pool.ledger, h, who, Some(limit), ok')
  {
    ghost var ledger := pool.ledger;
    if ok { NotYet(ctx, p, m, base, ledger, pool.size, ok, who); }
    var slot := pool.Take(BotRate(ctx.v, who));
    match slot
    case None =>
      RanOut(ctx, p, p', m, base, ledger, pool.size, ok, who);
      return None, false;
    case Some(n) =>
      if ok { MatchesSame(ctx, p, p', m); }
      forall s | s in m ensures OwnedBy(ctx, ledger + [BotRate(ctx.v, who)], m[s]) { assert OwnedBy(ctx, ledger, m[s]); }
      return Some(Holder(n, who, limit)), ok;
  }

  function AggregateOwner(k: nat): RateOwner
    requires k < 4
  {
    if k == 0 then UnknownBot else if k == 1 then NoUa else if k == 2 then FakeBot else Fallback
  }

  lemma AggregateStep(ctx: Ctx, k: nat)
    requires k < 4
    ensures forall w {:trigger Issued(ctx, TotalsP(ctx, k + 1, 0, false), w)} ::
      Issued(ctx, TotalsP(ctx, k + 1, 0, false), w) <==>
        Issued(ctx, TotalsP(ctx, k, 0, false), w) || (w == AggregateOwner(k) && ctx.wild.Some?)
    ensures forall s {:trigger Rule(ctx, TotalsP(ctx, k + 1, 0, false), s)} ::
      Rule(ctx, TotalsP(ctx, k + 1, 0, false), s) == Rule(ctx, TotalsP(ctx, k, 0, false), s)
  {}

  ghost predicate AggregatesOk(ctx: Ctx, ledger: seq<Owner>, hs: seq<Option<Holder>>, ok: bool) {
    |hs| <= 4 && forall k {:trigger hs[k]} :: 0 <= k < |hs| ==> Rests(ctx, ledger, hs[k], AggregateOwner(k), ctx.wild, ok)
  }

  lemma RestsGrows(ctx: Ctx, ledger: seq<Owner>, ledger': seq<Owner>, hs: seq<Option<Holder>>, ok: bool, ok': bool)
    requires AggregatesOk(ctx, ledger, hs, ok) && ledger <= ledger' && (ok' ==> ok)
    ensures AggregatesOk(ctx, ledger', hs, ok')
  {
    forall k | 0 <= k < |hs| ensures Rests(ctx, ledger', hs[k], AggregateOwner(k), ctx.wild, ok') {
      assert Rests(ctx, ledger, hs[k], AggregateOwner(k), ctx.wild, ok);
    }
  }

  method Aggregates(ctx: Ctx, pool: Pool, m: map<string, Holder>, ok0: bool, ghost base: seq<Owner>)
      returns (hs: seq<Option<Holder>>, ok: bool)
    requires pool.Valid() && Built(ctx, WildP(ctx, |ctx.known|), m, base, pool.ledger, pool.size, ok0)
    modifies pool
    ensures pool.Valid() && Built(ctx, TotalsP(ctx, 4, 0, false), m, base, pool.ledger, pool.size, ok)
    ensures |hs| == 4 && AggregatesOk(ctx, pool.ledger, hs, ok)
  {
    hs, ok := [], ok0;
    assert WildP(ctx, |ctx.known|) == TotalsP(ctx, 0, 0, false);
    for k := 0 to 4
      invariant pool.Valid() && Built(ctx, TotalsP(ctx, k, 0, false), m, base, pool.ledger, pool.size, ok)
      invariant |hs| == k && AggregatesOk(ctx, pool.ledger, hs, ok)
    {
      ghost var p, p', was, okWas := TotalsP(ctx, k, 0, false), TotalsP(ctx, k + 1, 0, false), pool.ledger, ok;
      AggregateStep(ctx, k);
      var h: Option<Holder> := None;
      if ctx.wild.Some? {
        h, ok := AllocateShared(ctx, pool, AggregateOwner(k), ctx.wild.value, m, ok, p, p', base);
      } else {
        if ok { MatchesSame(ctx, p, p', m); }
      }
      RestsGrows(ctx, was, pool.ledger, hs, okWas, ok);
      hs := hs + [h];
    }
  }

  /** Limit of the first of the first `n` entries that shares a budget over botgroup `name`. */
  function GroupLimit(es: seq<Entry>, n: nat, name: string): Option<Limit>
    requires n <= |es|
  {
    if n == 0 then None
    else if GroupLimit(es, n - 1, name).Some? then GroupLimit(es, n - 1, name)
    else if es[n - 1].GroupShared? && es[n - 1].name == name then Some(es[n - 1].limit)
    else None
  }

  lemma {:induction false} GroupLimitSome(es: seq<Entry>, n: nat, name: string)
    requires n <= |es|
    ensures GroupLimit(es, n, name).Some? <==> exists i :: 0 <= i < n && es[i] == GroupShared(name, es[i].limit)
  {
    if n > 0 {
      GroupLimitSome(es, n - 1, name);
      if es[n - 1].GroupShared? && es[n - 1].name == name { assert es[n - 1] == GroupShared(name, es[n - 1].limit); }
    }
  }

  lemma GroupStep(ctx: Ctx, n: nat)
    requires n < |ctx.entries|
    ensures var p, p', e := TotalsP(ctx, 4, n, false), TotalsP(ctx, 4, n + 1, false), ctx.entries[n];
      && (forall w {:trigger Issued(ctx, p', w)} ::
            Issued(ctx, p', w) <==> Issued(ctx, p, w) || (e.GroupShared? && w == GroupTotal(e.name)))
      && (forall s {:trigger Rule(ctx, p', s)} :: Rule(ctx, p', s) == Rule(ctx, p, s))
  {
    var p, p', e := TotalsP(ctx, 4, n, false), TotalsP(ctx, 4, n + 1, false), ctx.entries[n];
    forall w ensures Issued(ctx, p', w) <==> Issued(ctx, p, w) || (e.GroupShared? && w == GroupTotal(e.name)) {
      if w.GroupTotal? && e.GroupShared? && w.name == e.name { assert ctx.entries[n] == GroupShared(w.name, e.limit); }
    }
  }

  ghost predicate TotalsOk(ctx: Ctx, ledger: seq<Owner>, totals: map<string, Holder>, n: nat, ok: bool)
    requires n <= |ctx.entries|
  {
    && (forall name {:trigger name in totals} :: name in totals ==>
          Rests(ctx, ledger, Some(totals[name]), GroupTotal(name), GroupLimit(ctx.entries, n, name), ok))
    && (ok ==> forall name {:trigger GroupLimit(ctx.entries, n, name)} :: GroupLimit(ctx.entries, n, name).Some? ==> name in totals)
  }

  lemma TotalsStep(ctx: Ctx, ledger: seq<Owner>, ledger': seq<Owner>, totals: map<string, Holder>, n: nat, ok: bool,
                   ok': bool, h: Option<Holder>)
    requires n < |ctx.entries| && TotalsOk(ctx, ledger, totals, n, ok) && ledger <= ledger' && (ok' ==> ok)
    requires var e := ctx.entries[n];
      if e.GroupShared? && e.name !in totals
      then Rests(ctx, ledger', h, GroupTotal(e.name), Some(e.limit), ok') && (h.Some? ==> ok)
      else h == None
    ensures var e := ctx.entries[n];
      TotalsOk(ctx, ledger', if h.Some? then totals[e.name := h.value] else totals, n + 1, ok')
  {
    var e := ctx.entries[n];
    var totals' := if h.Some? then totals[e.name := h.value] else totals;
    forall name | name in totals'
      ensures Rests(ctx, ledger', Some(totals'[name]), GroupTotal(name), GroupLimit(ctx.entries, n + 1, name), ok')
    {
      if name in totals {
        assert Rests(ctx, ledger, Some(totals[name]), GroupTotal(name), GroupLimit(ctx.entries, n, name), ok);
      } else {
        assert GroupLimit(ctx.entries, n, name) == None;
      }
    }
    if ok' {
      forall name | GroupLimit(ctx.entries, n + 1, name).Some? ensures name in totals' {
        if GroupLimit(ctx.entries, n, name).Some? { assert name in totals; }
      }
    }
  }

  ghost predicate TotalsState(ctx: Ctx, n: nat, m: map<string, Holder>, totals: map<string, Holder>,
                              base: seq<Owner>, ledger: seq<Owner>, size: nat, ok: bool) {
    && n <= |ctx.entries|
    && Built(ctx, TotalsP(ctx, 4, n, false), m, base, ledger, size, ok)
    && TotalsOk(ctx, ledger, totals, n, ok)
  }

  /** One shared counter per botgroup named by a scope=group rule; the first rule keeps it. */
  method GroupTotals(ctx: Ctx, pool: Pool, m: map<string, Holder>, ok0: bool, ghost base: seq<Owner>)
      returns (totals: map<string, Holder>, ok: bool)
    requires pool.Valid() && TotalsState(ctx, 0, m, map[], base, pool.ledger, pool.size, ok0)
    modifies pool
    ensures pool.Valid() && TotalsState(ctx, |ctx.entries|, m, totals, base, pool.ledger, pool.size, ok)
    ensures old(pool.ledger) <= pool.ledger && (ok ==> ok0)
  {
    totals, ok := map[], ok0;
    for n := 0 to |ctx.entries|
      invariant pool.Valid()
      // Compared with `true` so that it is carried as one fact; taken apart it costs ten times as much.
      invariant TotalsState(ctx, n, m, totals, base, pool.ledger, pool.size, ok) == true
      invariant old(pool.ledger) <= pool.ledger && (ok ==> ok0)
    {
      totals, ok := TotalOf(ctx, pool, n, m, totals, ok, base);
    }
  }

  method TotalOf(ctx: Ctx, pool: Pool, n: nat, m: map<string, Holder>, totals0: map<string, Holder>, ok0: bool,
                 ghost base: seq<Owner>)
      returns (totals: map<string, Holder>, ok: bool)
    requires n < |ctx.entries|
    requires pool.Valid() && TotalsState(ctx, n, m, totals0, base, pool.ledger, pool.size, ok0)
    modifies pool
    ensures pool.Valid() && TotalsState(ctx, n + 1, m, totals, base, pool.ledger, pool.size, ok)
    ensures old(pool.ledger) <= pool.ledger && (ok ==> ok0)
  {
    var e := ctx.entries[n];
    var h: Option<Holder> := None;
    ghost var was := pool.ledger;
    totals, ok := totals0, ok0;
    if e.GroupShared? && e.name !in totals {
      h, ok := OneTotal(ctx, pool, n, m, totals, ok, base);
    } else {
      SkipTotal(ctx, n, m, totals, base, pool.ledger, pool.size, ok);
    }
    TotalsStep(ctx, was, pool.ledger, totals, n, ok0, ok, h);
    if h.Some? { totals := totals[e.name := h.value]; }
  }

  method OneTotal(ctx: Ctx, pool: Pool, n: nat, m: map<string, Holder>, totals: map<string, Holder>, ok0: bool,
                  ghost base: seq<Owner>)
      returns (h: Option<Holder>, ok: bool)
    requires n < |ctx.entries| && ctx.entries[n].GroupShared? && ctx.entries[n].name !in totals
    requires pool.Valid() && Built(ctx, TotalsP(ctx, 4, n, false), m, base, pool.ledger, pool.size, ok0)
    requires TotalsOk(ctx, pool.ledger, totals, n, ok0)
    modifies pool
    ensures pool.Valid() && Built(ctx, TotalsP(ctx, 4, n + 1, false), m, base, pool.ledger, pool.size, ok)
    ensures old(pool.ledger) <= pool.ledger && (ok ==> ok0) && (h.Some? ==> ok0)
    ensures Rests(ctx, pool.ledger, h, GroupTotal(ctx.entries[n].name), Some(ctx.entries[n].limit), ok)
  {
    ghost var p, p' := TotalsP(ctx, 4, n, false), TotalsP(ctx, 4, n + 1, false);
    var e := ctx.entries[n];
    GroupStep(ctx, n);
    GroupLimitSome(ctx.entries, n, e.name);
    assert ctx.entries[n] == GroupShared(e.name, e.limit);
    h, ok := AllocateShared(ctx, pool, GroupTotal(e.name), e.limit, m, ok0, p, p', base);
  }

  lemma SkipTotal(ctx: Ctx, n: nat, m: map<string, Holder>, totals: map<string, Holder>,
                  base: seq<Owner>, ledger: seq<Owner>, size: nat, ok: bool)
    requires n < |ctx.entries| && (ctx.entries[n].GroupShared? ==> ctx.entries[n].name in totals)
    requires Built(ctx, TotalsP(ctx, 4, n, false), m, base, ledger, size, ok) && TotalsOk(ctx, ledger, totals, n, ok)
    ensures Built(ctx, TotalsP(ctx, 4, n + 1, false), m, base, ledger, size, ok)
  {
    var p, p', e := TotalsP(ctx, 4, n, false), TotalsP(ctx, 4, n + 1, false), ctx.entries[n];
    GroupStep(ctx, n);
    if ok {
      MatchesSame(ctx, p, p', m);
      if e.GroupShared? {
        assert Rests(ctx, ledger, Some(totals[e.name]), GroupTotal(e.name), GroupLimit(ctx.entries, n, e.name), ok);
        GroupLimitSome(ctx.entries, n, e.name);
        assert Issued(ctx, p, GroupTotal(e.name));
      }
    }
  }

  /** The limit of the scope=total rule, if there is one. */
  function GrandLimit(es: seq<Entry>, n: nat): (l: Option<Limit>)
    requires n <= |es|
    ensures l.Some? <==> exists i :: 0 <= i < n && es[i].GrandShared?
  {
    if n == 0 then None
    else if GrandLimit(es, n - 1).Some? then GrandLimit(es, n - 1)
    else if es[n - 1].GrandShared? then Some(es[n - 1].limit) else None
  }

  lemma GrandStep(ctx: Ctx)
    ensures var p, p' := TotalsP(ctx, 4, |ctx.entries|, false), Complete(ctx);
      && (forall w {:trigger Issued(ctx, p', w)} ::
            Issued(ctx, p', w) <==> Issued(ctx, p, w) || (w == GrandTotal && GrandLimit(ctx.entries, |ctx.entries|).Some?))
      && (forall s {:trigger Rule(ctx, p', s)} :: Rule(ctx, p', s) == Rule(ctx, p, s))
  {}

  /** The total ceiling. */
  method GrandCeiling(ctx: Ctx, pool: Pool, m: map<string, Holder>, ok0: bool, ghost base: seq<Owner>)
      returns (h: Option<Holder>, ok: bool)
    requires pool.Valid() && Built(ctx, TotalsP(ctx, 4, |ctx.entries|, false), m, base, pool.ledger, pool.size, ok0)
    modifies pool
    ensures pool.Valid() && Built(ctx, Complete(ctx), m, base, pool.ledger, pool.size, ok)
    ensures old(pool.ledger) <= pool.ledger && (ok ==> ok0)
    ensures Rests(ctx, pool.ledger, h, GrandTotal, GrandLimit(ctx.entries, |ctx.entries|), ok)
  {
    ghost var p, p' := TotalsP(ctx, 4, |ctx.entries|, false), Complete(ctx);
    GrandStep(ctx);
    var limit := GrandLimit(ctx.entries, |ctx.entries|);
    match limit
    case Some(l) =>
      h, ok := AllocateShared(ctx, pool, GrandTotal, l, m, ok0, p, p', base);
    case None =>
      h, ok := None, ok0;
      if ok { MatchesSame(ctx, p, p', m); }
  }

  // ----- the whole initialisation --------------------------------------------------------

  function DirectiveWildcard(es: seq<Entry>, n: nat): (l: Option<Limit>)
    requires n <= |es|
  {
    if n == 0 then None
    else if DirectiveWildcard(es, n - 1).Some? then DirectiveWildcard(es, n - 1)
    else if es[n - 1].Wildcard? then Some(es[n - 1].limit) else None
  }

  /** The first wildcard rule of a list, if it has one. */
  ghost predicate FirstWildcard(es: seq<Entry>, i: nat) {
    i < |es| && es[i].Wildcard? && forall k :: 0 <= k < i ==> !es[k].Wildcard?
  }

  lemma {:induction false} DirectiveWildcardIs(es: seq<Entry>, n: nat)
    requires n <= |es|
    ensures match DirectiveWildcard(es, n)
      case None => forall k :: 0 <= k < n ==> !es[k].Wildcard?
      case Some(l) => exists i: nat :: i < n && FirstWildcard(es, i) && l == es[i].limit
  {
    if n > 0 {
      DirectiveWildcardIs(es, n - 1);
      if DirectiveWildcard(es, n - 1) == None && es[n - 1].Wildcard? { assert FirstWildcard(es, n - 1); }
    }
  }

  /** Where the effective wildcard of a host comes from: its first wildcard rule; without one,
      and unless the implicit limits are declined, the robots.txt wildcard. */
  ghost predicate WildFrom(vh: Vhost, wild: Option<Limit>) {
    && (forall i: nat :: FirstWildcard(vh.entries, i) ==> wild == Some(vh.entries[i].limit))
    && ((forall k :: 0 <= k < |vh.entries| ==> !vh.entries[k].Wildcard?) ==>
          if vh.off then wild == None else RobotsWildcard(vh.groups, wild))
  }

  lemma {:induction false} ContextWild(vh: Vhost, resolve: string -> seq<string>, v: nat, known: seq<string>, ctx: Ctx)
    requires ContextOf(vh, resolve, v, known, ctx)
    ensures WildFrom(vh, ctx.wild)
  {
    DirectiveWildcardIs(vh.entries, |vh.entries|);
    forall i: nat | FirstWildcard(vh.entries, i) ensures ctx.wild == Some(vh.entries[i].limit) {
      var l := DirectiveWildcard(vh.entries, |vh.entries|);
      assert vh.entries[i].Wildcard?;
      var j: nat :| j < |vh.entries| && FirstWildcard(vh.entries, j) && l == Some(vh.entries[j].limit);
    }
  }

  /** `l` is the largest positive delay of a `*` group, with the mode of the first group that has it. */
  ghost predicate RobotsWildcard(groups: seq<Group>, l: Option<Limit>) {
    match l
    case None => forall g :: 0 <= g < |groups| && groups[g].wildcard ==> groups[g].delayMs == 0
    case Some(limit) => exists g: nat :: IsWildMax(groups, g) && limit == Limit(1, groups[g].delayMs, groups[g].observe)
  }

  ghost predicate IsWildMax(groups: seq<Group>, g: nat) {
    && g < |groups| && groups[g].wildcard && groups[g].delayMs > 0
    && (forall k :: 0 <= k < |groups| && groups[k].wildcard ==> groups[k].delayMs <= groups[g].delayMs)
    && (forall k :: 0 <= k < g && groups[k].wildcard ==> groups[k].delayMs < groups[g].delayMs)
  }

  method FindRobotsWildcard(groups: seq<Group>) returns (l: Option<Limit>)
    ensures RobotsWildcard(groups, l)
  {
    var wildMs, wildG := 0, -1;
    for g := 0 to |groups|
      invariant wildMs == 0 ==> wildG == -1
      invariant wildMs > 0 ==> 0 <= wildG < g && groups[wildG].wildcard && groups[wildG].delayMs == wildMs
      invariant forall k :: 0 <= k < g && groups[k].wildcard ==> groups[k].delayMs <= wildMs
      invariant wildMs > 0 ==> forall k :: 0 <= k < wildG && groups[k].wildcard ==> groups[k].delayMs < wildMs
    {
      if groups[g].wildcard && groups[g].delayMs > wildMs {
        wildMs, wildG := groups[g].delayMs, g;
      }
    }
    if wildMs > 0 {
      assert IsWildMax(groups, wildG);
      l := Some(Limit(1, wildMs, groups[wildG].observe));
    } else {
      l := None;
    }
  }

  /** The context a virtual host's configuration determines. */
  ghost predicate ContextOf(vh: Vhost, resolve: string -> seq<string>, v: nat, known: seq<string>, ctx: Ctx) {
    && ctx.v == v && ctx.entries == vh.entries && ctx.groups == vh.groups && ctx.known == known
    && (if vh.off then ctx.table == map[]
        else TableOk(vh.groups, ClaimsOf(vh.groups, |vh.groups|, resolve), ctx.table))
    && (var d := DirectiveWildcard(vh.entries, |vh.entries|);
        if d.Some? then ctx.wild == d
        else if vh.off then ctx.wild == None
        else RobotsWildcard(vh.groups, ctx.wild))
  }

  datatype RateTable = RateTable(bySlug: map<string, Holder>, shared: Shared)

  ghost predicate SharedOk(ctx: Ctx, ledger: seq<Owner>, sh: Shared, ok: bool) {
    && Rests(ctx, ledger, sh.unknownBot, UnknownBot, ctx.wild, ok)
    && Rests(ctx, ledger, sh.noUa, NoUa, ctx.wild, ok)
    && Rests(ctx, ledger, sh.fakeBot, FakeBot, ctx.wild, ok)
    && Rests(ctx, ledger, sh.fallback, Fallback, ctx.wild, ok)
    && TotalsOk(ctx, ledger, sh.groupTotals, |ctx.entries|, ok)
    && Rests(ctx, ledger, sh.grand, GrandTotal, GrandLimit(ctx.entries, |ctx.entries|), ok)
  }

  lemma {:induction false} ClaimsNameDocGroups(vh: Vhost, resolve: string -> seq<string>, v: nat, known: seq<string>, ctx: Ctx)
    requires ContextOf(vh, resolve, v, known, ctx)
    ensures TableInDoc(ctx)
  {
    forall s | s in ctx.table ensures ctx.table[s].g < |ctx.groups| && !ctx.groups[ctx.table[s].g].wildcard {
      WinnerNamed(vh.groups, resolve, ctx.table, s);
    }
  }

  /** `bs_bot_rate_init` for one virtual host. */
  method InitVhost(vh: Vhost, resolve: string -> seq<string>, v: nat, known: seq<string>, pool: Pool)
      returns (t: RateTable, ok: bool, ghost ctx: Ctx)
    requires pool.Valid()
    requires forall w {:trigger BotRate(v, w)} :: BotRate(v, w) !in pool.ledger
    modifies pool
    ensures pool.Valid() && ContextOf(vh, resolve, v, known, ctx) && WildFrom(vh, ctx.wild)
    ensures Built(ctx, Complete(ctx), t.bySlug, old(pool.ledger), pool.ledger, pool.size, ok)
    ensures SharedOk(ctx, pool.ledger, t.shared, ok)
  {
    var wild := DirectiveWildcard(vh.entries, |vh.entries|);
    var table: map<string, Claim> := map[];
    if !vh.off {
      if wild == None { wild := FindRobotsWildcard(vh.groups); }
      table := ClaimWalk(vh.groups, resolve);
    }
    var c := Ctx(v, vh.entries, vh.groups, table, wild, known);
    ctx := c;
    ClaimsNameDocGroups(vh, resolve, v, known, ctx);
    ContextWild(vh, resolve, v, known, ctx);
    t, ok := RunPasses(c, pool);
  }

  method RunPasses(ctx: Ctx, pool: Pool) returns (t: RateTable, ok: bool)
    requires pool.Valid() && TableInDoc(ctx)
    requires forall w {:trigger BotRate(ctx.v, w)} :: BotRate(ctx.v, w) !in pool.ledger
    modifies pool
    ensures pool.Valid() && Built(ctx, Complete(ctx), t.bySlug, old(pool.ledger), pool.ledger, pool.size, ok)
    ensures SharedOk(ctx, pool.ledger, t.shared, ok)
  {
    ghost var base := pool.ledger;
    var m;
    m, ok := PassRobots(ctx, pool);
    assert RobotsP(|ctx.groups|) == SpecificP(ctx, 0);
    m, ok := PassSpecific(ctx, pool, m, ok, base);
    m, ok := PassBotgroup(ctx, pool, m, ok, base);
    m, ok := PassWildcard(ctx, pool, m, ok, base);
    var hs, totals, grand;
    hs, ok := Aggregates(ctx, pool, m, ok, base);
    ghost var l1, ok1 := pool.ledger, ok;
    totals, ok := GroupTotals(ctx, pool, m, ok, base);
    RestsGrows(ctx, l1, pool.ledger, hs, ok1, ok);
    ghost var l2, ok2 := pool.ledger, ok;
    grand, ok := GrandCeiling(ctx, pool, m, ok, base);
    RestsGrows(ctx, l2, pool.ledger, hs, ok2, ok);
    t := RateTable(m, Shared(hs[0], hs[1], hs[2], hs[3], totals, grand));
  }

  // ----- theorems ---------------------------------------------------------------------

  lemma {:induction false} LastSpecificIs(es: seq<Entry>, n: nat, slug: string)
    requires n <= |es|
    ensures forall k :: LastSpecific(es, n, slug) < k < n ==> !Covers(es[k], slug)
  {
    if n > 0 && !Covers(es[n - 1], slug) { LastSpecificIs(es, n - 1, slug); }
  }

  lemma {:induction false} FirstBotgroupIs(es: seq<Entry>, n: nat, slug: string)
    requires n <= |es|
    ensures var i := FirstBotgroup(es, n, slug);
      forall k :: 0 <= k < (if i >= 0 then i else n) ==> !GroupCovers(es[k], slug)
  {
    if n > 0 { FirstBotgroupIs(es, n - 1, slug); }
  }

  ghost predicate SomeDirective(ctx: Ctx, slug: string) {
    exists i :: 0 <= i < |ctx.entries| && Covers(ctx.entries[i], slug)
  }

  ghost predicate SomeBotgroup(ctx: Ctx, slug: string) {
    exists i :: 0 <= i < |ctx.entries| && GroupCovers(ctx.entries[i], slug)
  }

  ghost predicate RobotsLimited(ctx: Ctx, slug: string) {
    slug in ctx.table && ctx.table[slug].g < |ctx.groups| &&
    (ctx.groups[ctx.table[slug].g].delayMs > 0 || ctx.wild.Some?)
  }

  /** The completed rule, spelled out: each kind of verdict is reached exactly when the ones
      before it do not apply. */
  lemma Precedence(ctx: Ctx, slug: string)
    ensures match Rule(ctx, Complete(ctx), slug)
      case Some(Verdict(Directive(i), l)) =>
        && i < |ctx.entries| && Covers(ctx.entries[i], slug) && l == ctx.entries[i].limit
        && forall k :: i < k < |ctx.entries| ==> !Covers(ctx.entries[k], slug)
      case Some(Verdict(RobotsGroup(g), l)) =>
        && !SomeDirective(ctx, slug) && RobotsLimited(ctx, slug) && g == ctx.table[slug].g
        && l == Limit(1, ctx.groups[g].delayMs, ctx.groups[g].observe)
      case Some(Verdict(BotgroupSlug(i, s), l)) =>
        && !SomeDirective(ctx, slug) && !RobotsLimited(ctx, slug) && s == slug
        && i < |ctx.entries| && GroupCovers(ctx.entries[i], slug) && l == ctx.entries[i].limit
        && forall k :: 0 <= k < i ==> !GroupCovers(ctx.entries[k], slug)
      case Some(Verdict(WildcardSlug(s), l)) =>
        && !SomeDirective(ctx, slug) && !RobotsLimited(ctx, slug) && !SomeBotgroup(ctx, slug)
        && s == slug && slug in ctx.known && ctx.wild == Some(l)
      case Some(_) => false
      case None =>
        && !SomeDirective(ctx, slug) && !RobotsLimited(ctx, slug) && !SomeBotgroup(ctx, slug)
        && (ctx.wild == None || slug !in ctx.known)
  {
    LastSpecificIs(ctx.entries, |ctx.entries|, slug);
    FirstBotgroupIs(ctx.entries, |ctx.entries|, slug);
    assert ctx.known[..|ctx.known|] == ctx.known;
  }

  /** A directory slug no other rule covers is limited by the host's first wildcard rule, by
      its own counter; with no such rule, by the robots.txt wildcard unless that is declined. */
  lemma {:induction false} WildcardReaches(vh: Vhost, resolve: string -> seq<string>, v: nat, known: seq<string>, ctx: Ctx,
                                           slug: string)
    requires ContextOf(vh, resolve, v, known, ctx) && slug in known
    requires !SomeDirective(ctx, slug) && !SomeBotgroup(ctx, slug) && slug !in ctx.table
    ensures forall i: nat :: FirstWildcard(vh.entries, i) ==>
      Rule(ctx, Complete(ctx), slug) == Some(Verdict(WildcardSlug(slug), vh.entries[i].limit))
    ensures (forall k :: 0 <= k < |vh.entries| ==> !vh.entries[k].Wildcard?) ==>
      match Rule(ctx, Complete(ctx), slug)
      case None => vh.off || RobotsWildcard(vh.groups, None)
      case Some(w) => !vh.off && w.who == WildcardSlug(slug) && RobotsWildcard(vh.groups, Some(w.limit))
  {
    ContextWild(vh, resolve, v, known, ctx);
    Precedence(ctx, slug);
  }

  /** The shared totals have the limit of the first rule that asks for them. */
  lemma {:induction false} TotalLimits(es: seq<Entry>, n: nat, name: string)
    requires n <= |es|
    ensures match GroupLimit(es, n, name)
      case None => forall k :: 0 <= k < n ==> !(es[k].GroupShared? && es[k].name == name)
      case Some(l) => exists i: nat :: i < n && FirstFor(es, i, name) && l == es[i].limit
    ensures match GrandLimit(es, n)
      case None => forall k :: 0 <= k < n ==> !es[k].GrandShared?
      case Some(l) => exists i: nat :: i < n && FirstGrand(es, i) && l == es[i].limit
  {
    if n > 0 {
      TotalLimits(es, n - 1, name);
      if GroupLimit(es, n - 1, name) == None && es[n - 1].GroupShared? && es[n - 1].name == name { assert FirstFor(es, n - 1, name); }
      if GrandLimit(es, n - 1) == None && es[n - 1].GrandShared? { assert FirstGrand(es, n - 1); }
    }
  }

  ghost predicate FirstFor(es: seq<Entry>, i: nat, name: string) {
    i < |es| && es[i].GroupShared? && es[i].name == name && forall k :: 0 <= k < i ==> !(es[k].GroupShared? && es[k].name == name)
  }

  ghost predicate FirstGrand(es: seq<Entry>, i: nat) {
    i < |es| && es[i].GrandShared? && forall k :: 0 <= k < i ==> !es[k].GrandShared?
  }

  /** With a pool that suffices, the table built is the rule: mapped exactly when the rule
      names a counter, with that counter's limit. */
  lemma TableIsRule(ctx: Ctx, m: map<string, Holder>, base: seq<Owner>, ledger: seq<Owner>, size: nat, slug: string)
    requires Built(ctx, Complete(ctx), m, base, ledger, size, true)
    ensures match Rule(ctx, Complete(ctx), slug)
      case None => slug !in m
      case Some(v) => slug in m && m[slug].who == v.who && m[slug].limit == v.limit
  {
    assert SlugOk(ctx, Complete(ctx), m, slug);
  }

  /** Two slugs share a counter exactly when the rule gives them the same owner. */
  lemma SharedCounter(ctx: Ctx, m: map<string, Holder>, base: seq<Owner>, ledger: seq<Owner>, size: nat,
                      s: string, t: string)
    requires Built(ctx, Complete(ctx), m, base, ledger, size, true) && Distinct(ledger) && s in m && t in m
    ensures Rule(ctx, Complete(ctx), s).Some? && Rule(ctx, Complete(ctx), t).Some?
    ensures m[s].slot == m[t].slot <==>
      Rule(ctx, Complete(ctx), s).value.who == Rule(ctx, Complete(ctx), t).value.who
  {
    assert SlugOk(ctx, Complete(ctx), m, s) && SlugOk(ctx, Complete(ctx), m, t);
    assert OwnedBy(ctx, ledger, m[s]) && OwnedBy(ctx, ledger, m[t]);
  }

  /** The counters the completed rule calls for, read off the configuration: one for each
      governing robots group with a limit, each specific directive, each slug a botgroup rule
      or the wildcard is the verdict on, and the shared ones. */
  ghost function Needed(ctx: Ctx): set<RateOwner> {
    PerSlug(ctx) + Common(ctx)
    + (set g | 0 <= g < |ctx.groups| && Active(ctx, g) :: RobotsGroup(g))
    + (set i | 0 <= i < |ctx.entries| && ctx.entries[i].Specific? :: Directive(i))
  }

  ghost function PerSlug(ctx: Ctx): set<RateOwner> {
    (set i, j | 0 <= i < |ctx.entries| && ctx.entries[i].PerBotgroup? && 0 <= j < |ctx.entries[i].slugs|
       && Names(ctx, Complete(ctx), ctx.entries[i].slugs[j], BotgroupSlug(i, ctx.entries[i].slugs[j]))
       :: BotgroupSlug(i, ctx.entries[i].slugs[j]))
    + (set k | 0 <= k < |ctx.known| && Names(ctx, Complete(ctx), ctx.known[k], WildcardSlug(ctx.known[k]))
         :: WildcardSlug(ctx.known[k]))
  }

  ghost function Common(ctx: Ctx): set<RateOwner> {
    (if ctx.wild.Some? then {UnknownBot, NoUa, FakeBot, Fallback} else {})
    + (set i | 0 <= i < |ctx.entries| && ctx.entries[i].GroupShared? :: GroupTotal(ctx.entries[i].name))
    + (set i | 0 <= i < |ctx.entries| && ctx.entries[i].GrandShared? :: GrandTotal)
  }

  lemma NeededIs(ctx: Ctx, w: RateOwner)
    ensures w in Needed(ctx) <==> Issued(ctx, Complete(ctx), w)
  {
    if w.BotgroupSlug? && Issued(ctx, Complete(ctx), w) {
      var j :| 0 <= j < |ctx.entries[w.i].slugs| && ctx.entries[w.i].slugs[j] == w.slug;
      assert w in PerSlug(ctx);
    } else if w.WildcardSlug? && Issued(ctx, Complete(ctx), w) {
      var k :| 0 <= k < |ctx.known| && ctx.known[k] == w.slug;
      assert w in PerSlug(ctx);
    } else if w.GroupTotal? && Issued(ctx, Complete(ctx), w) {
      var i :| 0 <= i < |ctx.entries| && ctx.entries[i] == GroupShared(w.name, ctx.entries[i].limit);
      assert w in Common(ctx);
    }
  }

  /** The counters handed out since `base`: one slot each, and none but what was called for. */
  lemma GivenOut(ctx: Ctx, m: map<string, Holder>, base: seq<Owner>, ledger: seq<Owner>, size: nat, ok: bool)
      returns (owners: set<RateOwner>)
    requires Built(ctx, Complete(ctx), m, base, ledger, size, ok) && Distinct(ledger)
    ensures |owners| == |ledger| - |base| && owners <= Needed(ctx)
    ensures forall w :: w in owners <==> BotRate(ctx.v, w) in ledger
  {
    var given := ledger[|base|..];
    assert ledger == base + given;
    forall i | 0 <= i < |given| ensures NewOwner(ctx, Complete(ctx), given[i]) {
      assert given[i] == ledger[|base| + i];
    }
    var whos := Whos(given);
    forall i, j | 0 <= i < j < |whos| ensures whos[i] != whos[j] {
      assert ledger[|base| + i] != ledger[|base| + j];
    }
    DistinctCount(whos);
    owners := Elements(whos);
    forall w ensures w in owners <==> BotRate(ctx.v, w) in ledger {
      WhoGiven(given, ctx.v, w);
      assert BotRate(ctx.v, w) !in base;
    }
    forall w | w in owners ensures w in Needed(ctx) {
      var i :| 0 <= i < |whos| && whos[i] == w;
      assert NewOwner(ctx, Complete(ctx), given[i]);
      NeededIs(ctx, w);
    }
  }

  function Whos(given: seq<Owner>): (ws: seq<RateOwner>)
    requires forall i :: 0 <= i < |given| ==> given[i].BotRate?
    ensures |ws| == |given| && forall i :: 0 <= i < |ws| ==> ws[i] == given[i].who
  {
    seq(|given|, i requires 0 <= i < |given| => given[i].who)
  }

  lemma WhoGiven(given: seq<Owner>, v: nat, w: RateOwner)
    requires forall i :: 0 <= i < |given| ==> given[i].BotRate? && given[i].vhost == v
    ensures w in Elements(Whos(given)) <==> BotRate(v, w) in given
  {
    if BotRate(v, w) in given {
      var i :| 0 <= i < |given| && given[i] == BotRate(v, w);
      assert Whos(given)[i] == w;
    }
  }

  /** The pool suffices exactly when it has room for the counters the rule calls for. */
  lemma {:induction false} PoolSuffices(ctx: Ctx, m: map<string, Holder>, base: seq<Owner>, ledger: seq<Owner>, size: nat, ok: bool)
    requires Built(ctx, Complete(ctx), m, base, ledger, size, ok) && Distinct(ledger)
    ensures ok <==> |base| + |Needed(ctx)| <= size
    ensures ok ==> |ledger| == |base| + |Needed(ctx)|
  {
    var owners := GivenOut(ctx, m, base, ledger, size, ok);
    if ok {
      forall w | w in Needed(ctx) ensures w in owners { NeededIs(ctx, w); }
      assert owners == Needed(ctx);
    } else {
      var w :| Missed(ctx, ledger, w);
      NeededIs(ctx, w);
      OneShort(owners, Needed(ctx), w);
    }
  }
}
