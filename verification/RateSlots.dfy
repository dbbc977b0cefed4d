/**
 Start-up order of the slot allocators: rule windows and their per-slug counters, robots.txt
 pools, bot-rate counters, all drawing on one cursor over every virtual host.
 */
module RateSlots {
  import opened Wrappers
  import opened Collections
  import opened SlotPool
  import opened RobotsClaims
  import opened BotRate

  const ROBOTS_POOL := 16

  // ----- rule windows -----------------------------------------------------------

  ghost predicate RowOk(e: RuleEntry, known: seq<string>, ledger: seq<Owner>, slug: string)
    requires slug in e.slugSlots
    reads e
  {
    var s := e.slugSlots[slug];
    s < |ledger| && ledger[s].RuleRow? && ledger[s].e == e && ledger[s].row < |known| && known[ledger[s].row] == slug
  }

  /** What an entry holds, the ledger confirms. */
  ghost predicate RuleOk(e: RuleEntry, known: seq<string>, ledger: seq<Owner>)
    reads e
  {
    && (e.shmSlot >= 0 ==> e.shmSlot < |ledger| && ledger[e.shmSlot] == RuleWindow(e))
    && (e.shmSlot < 0 ==> e.slugSlots == map[])
    && (forall slug {:trigger slug in e.slugSlots} :: slug in e.slugSlots ==> RowOk(e, known, ledger, slug))
  }

  ghost predicate RulesOk(rules: set<RuleEntry>, known: seq<string>, ledger: seq<Owner>)
    reads rules
  {
    forall e {:trigger RuleOk(e, known, ledger)} :: e in rules ==> RuleOk(e, known, ledger)
  }

  /** Only entries that already hold a window own slots. */
  ghost predicate OnlyWired(rules: set<RuleEntry>, ledger: seq<Owner>)
    reads rules
  {
    forall i {:trigger ledger[i]} :: 0 <= i < |ledger| ==>
      (ledger[i].RuleWindow? || ledger[i].RuleRow?) && ledger[i].e in rules && ledger[i].e.shmSlot >= 0
  }

  /** A wired entry has a budget, and its per-slug counters are complete unless the pool is
      exhausted. */
  ghost predicate Filled(e: RuleEntry, known: seq<string>, ledger: seq<Owner>, size: nat)
    reads e
  {
    e.shmSlot >= 0 ==>
      && e.budget > 0
      && (if e.perSlug then |ledger| >= size || forall s :: s in known ==> s in e.slugSlots else e.slugSlots == map[])
  }

  ghost predicate AllFilled(rules: set<RuleEntry>, known: seq<string>, ledger: seq<Owner>, size: nat)
    reads rules
  {
    forall e {:trigger Filled(e, known, ledger, size)} :: e in rules ==> Filled(e, known, ledger, size)
  }

  /** An entry with a budget has its window, unless the pool is exhausted. */
  ghost predicate Served(e: RuleEntry, ledger: seq<Owner>, size: nat)
    reads e
  {
    e.budget > 0 ==> e.shmSlot >= 0 || |ledger| >= size
  }

  /** The counters of one per-slug rule: one slot per directory row while the pool lasts. A slug
      on several rows takes a slot for each and keeps the last. */
  method WireRows(e: RuleEntry, known: seq<string>, pool: Pool)
    requires pool.Valid() && RuleOk(e, known, pool.ledger) && e.shmSlot >= 0 && e.slugSlots == map[]
    requires forall k {:trigger RuleRow(e, k)} :: RuleRow(e, k) !in pool.ledger
    modifies pool, e`slugSlots
    ensures pool.Valid() && RuleOk(e, known, pool.ledger) && old(pool.ledger) <= pool.ledger
    ensures forall i :: |old(pool.ledger)| <= i < |pool.ledger| ==> pool.ledger[i].RuleRow? && pool.ledger[i].e == e
    ensures |pool.ledger| == if old(|pool.ledger|) + |known| <= pool.size then old(|pool.ledger|) + |known| else pool.size
    ensures old(|pool.ledger|) + |known| <= pool.size ==> forall s :: s in known ==> s in e.slugSlots
  {
    for k := 0 to |known|
      invariant pool.Valid() && RuleOk(e, known, pool.ledger) && old(pool.ledger) <= pool.ledger
      invariant forall i :: |old(pool.ledger)| <= i < |pool.ledger| ==>
        pool.ledger[i].RuleRow? && pool.ledger[i].e == e && pool.ledger[i].row < k
      invariant |pool.ledger| == if old(|pool.ledger|) + k <= pool.size then old(|pool.ledger|) + k else pool.size
      invariant old(|pool.ledger|) + k <= pool.size ==> forall s :: s in known[..k] ==> s in e.slugSlots
    {
      ghost var ledger := pool.ledger;
      assert known[..k + 1] == known[..k] + [known[k]];
      if pool.next < pool.size {
        assert RuleRow(e, k) !in ledger by {
          forall i | 0 <= i < |ledger| ensures ledger[i] != RuleRow(e, k) {
            if i < |old(pool.ledger)| { assert ledger[i] in old(pool.ledger); }
          }
        }
        var slot := pool.Take(RuleRow(e, k));
        label L:
        e.slugSlots := e.slugSlots[known[k] := slot.value];
        forall s | s in e.slugSlots ensures RowOk(e, known, pool.ledger, s) {
          if s != known[k] { assert old@L(RowOk(e, known, pool.ledger, s)); }
        }
      }
    }
    assert known[..|known|] == known;
  }

  /** One rule of one virtual host. An entry already wired through another host is left alone. */
  method WireRule(e: RuleEntry, known: seq<string>, pool: Pool, ghost rules: set<RuleEntry>)
    requires pool.Valid() && e in rules && RulesOk(rules, known, pool.ledger) && OnlyWired(rules, pool.ledger)
    requires AllFilled(rules, known, pool.ledger, pool.size)
    modifies pool, e`slugSlots, e`shmSlot
    ensures pool.Valid() && RulesOk(rules, known, pool.ledger) && OnlyWired(rules, pool.ledger)
    ensures AllFilled(rules, known, pool.ledger, pool.size) && Served(e, pool.ledger, pool.size)
    ensures old(pool.ledger) <= pool.ledger && (old(e.shmSlot) >= 0 ==> e.shmSlot == old(e.shmSlot))
  {
    if e.budget == 0 || e.shmSlot >= 0 { return; }
    if pool.next < pool.size {
      ghost var ledger := pool.ledger;
      assert RuleOk(e, known, ledger);
      forall o | o in ledger ensures o != RuleWindow(e) && (o.RuleRow? ==> o.e != e) {
        var i :| 0 <= i < |ledger| && ledger[i] == o;
        assert ledger[i].e.shmSlot >= 0;
      }
      var slot := pool.Take(RuleWindow(e));
      e.shmSlot := slot.value;
      if e.perSlug {
        e.slugSlots := map[];
        WireRows(e, known, pool);
      }
      forall d | d in rules ensures RuleOk(d, known, pool.ledger) {
        if d != e {
          assert old(RuleOk(d, known, pool.ledger));
        }
      }
      forall d | d in rules ensures Filled(d, known, pool.ledger, pool.size) {
        if d != e { assert old(Filled(d, known, pool.ledger, pool.size)); }
      }
      forall i | 0 <= i < |pool.ledger|
        ensures (pool.ledger[i].RuleWindow? || pool.ledger[i].RuleRow?) && pool.ledger[i].e in rules && pool.ledger[i].e.shmSlot >= 0
      {
        if i < |ledger| { assert pool.ledger[i] == ledger[i]; }
      }
    }
  }

  /** Every rule of every virtual host, in declaration order. */
  method WireAll(vhosts: seq<seq<RuleEntry>>, known: seq<string>, pool: Pool, ghost rules: set<RuleEntry>)
    requires pool.Valid() && RulesOk(rules, known, pool.ledger) && OnlyWired(rules, pool.ledger)
    requires AllFilled(rules, known, pool.ledger, pool.size)
    requires forall v, i {:trigger vhosts[v][i]} :: 0 <= v < |vhosts| && 0 <= i < |vhosts[v]| ==> vhosts[v][i] in rules
    modifies pool, rules
    ensures pool.Valid() && RulesOk(rules, known, pool.ledger) && OnlyWired(rules, pool.ledger)
    ensures AllFilled(rules, known, pool.ledger, pool.size)
    ensures forall v, i {:trigger vhosts[v][i]} :: 0 <= v < |vhosts| && 0 <= i < |vhosts[v]| ==>
      Served(vhosts[v][i], pool.ledger, pool.size)
  {
    for v := 0 to |vhosts|
      invariant pool.Valid() && RulesOk(rules, known, pool.ledger) && OnlyWired(rules, pool.ledger)
      invariant AllFilled(rules, known, pool.ledger, pool.size)
      invariant forall u, i {:trigger vhosts[u][i]} :: 0 <= u < v && 0 <= i < |vhosts[u]| ==>
        Served(vhosts[u][i], pool.ledger, pool.size)
    {
      WireHost(vhosts, v, known, pool, rules);
    }
  }

  method WireHost(vhosts: seq<seq<RuleEntry>>, v: nat, known: seq<string>, pool: Pool, ghost rules: set<RuleEntry>)
    requires pool.Valid() && RulesOk(rules, known, pool.ledger) && OnlyWired(rules, pool.ledger)
    requires AllFilled(rules, known, pool.ledger, pool.size) && v < |vhosts|
    requires forall u, i {:trigger vhosts[u][i]} :: 0 <= u < |vhosts| && 0 <= i < |vhosts[u]| ==> vhosts[u][i] in rules
    modifies pool, rules
    ensures pool.Valid() && RulesOk(rules, known, pool.ledger) && OnlyWired(rules, pool.ledger)
    ensures AllFilled(rules, known, pool.ledger, pool.size)
    ensures forall i {:trigger vhosts[v][i]} :: 0 <= i < |vhosts[v]| ==> Served(vhosts[v][i], pool.ledger, pool.size)
    ensures forall e :: e in rules && old(Served(e, pool.ledger, pool.size)) ==> Served(e, pool.ledger, pool.size)
  {
    for i := 0 to |vhosts[v]|
      invariant pool.Valid() && RulesOk(rules, known, pool.ledger) && OnlyWired(rules, pool.ledger)
      invariant AllFilled(rules, known, pool.ledger, pool.size)
      invariant forall k {:trigger vhosts[v][k]} :: 0 <= k < i ==> Served(vhosts[v][k], pool.ledger, pool.size)
      invariant forall e :: e in rules && old(Served(e, pool.ledger, pool.size)) ==> Served(e, pool.ledger, pool.size)
    {
      assert vhosts[v][i] in rules;
      WireRule(vhosts[v][i], known, pool, rules);
    }
  }

  // ----- robots.txt pools ---------------------------------------------------------

  /** A virtual host's robots.txt pool: slots `base..base + size`. */
  datatype RobotsPool = RobotsPool(base: nat, size: nat)

  ghost predicate PoolOk(ledger: seq<Owner>, v: nat, p: RobotsPool) {
    p.base + p.size <= |ledger| && forall k {:trigger RobotsSlot(v, k)} :: 0 <= k < p.size ==> ledger[p.base + k] == RobotsSlot(v, k)
  }

  ghost predicate PoolsOk(ledger: seq<Owner>, pools: seq<RobotsPool>) {
    forall v {:trigger pools[v]} :: 0 <= v < |pools| ==> PoolOk(ledger, v, pools[v])
  }

  /** A configured host gets a whole pool, or what was left of the slots; others get none. */
  ghost predicate PoolSized(configured: bool, p: RobotsPool, ledger: seq<Owner>, size: nat) {
    if configured then p.size == ROBOTS_POOL || (p.size < ROBOTS_POOL && |ledger| >= size) else p.size == 0
  }

  /** Owners of the robots phase and before. */
  ghost predicate BeforeRates(ledger: seq<Owner>, v: nat) {
    forall i {:trigger ledger[i]} :: 0 <= i < |ledger| ==> !ledger[i].BotRate? && (ledger[i].RobotsSlot? ==> ledger[i].vhost < v)
  }

  /** Reserves a pool for each virtual host that has a robots.txt configured. */
  method ReserveRobots(configured: seq<bool>, pool: Pool) returns (pools: seq<RobotsPool>)
    requires pool.Valid() && BeforeRates(pool.ledger, 0)
    modifies pool
    ensures pool.Valid() && old(pool.ledger) <= pool.ledger && BeforeRates(pool.ledger, |configured|)
    ensures |pools| == |configured| && PoolsOk(pool.ledger, pools)
    ensures forall v {:trigger pools[v]} :: 0 <= v < |pools| ==> PoolSized(configured[v], pools[v], pool.ledger, pool.size)
  {
    pools := [];
    for v := 0 to |configured|
      invariant pool.Valid() && old(pool.ledger) <= pool.ledger && BeforeRates(pool.ledger, v)
      invariant |pools| == v && PoolsOk(pool.ledger, pools)
      invariant forall u {:trigger pools[u]} :: 0 <= u < v ==> PoolSized(configured[u], pools[u], pool.ledger, pool.size)
    {
      var p := ReserveOne(v, configured[v], pool);
      pools := pools + [p];
    }
  }

  method ReserveOne(v: nat, configured: bool, pool: Pool) returns (p: RobotsPool)
    requires pool.Valid() && BeforeRates(pool.ledger, v)
    modifies pool
    ensures pool.Valid() && old(pool.ledger) <= pool.ledger && BeforeRates(pool.ledger, v + 1)
    ensures PoolOk(pool.ledger, v, p) && PoolSized(configured, p, pool.ledger, pool.size)
  {
    if !configured { return RobotsPool(0, 0); }
    ghost var ledger := pool.ledger;
    forall k ensures RobotsSlot(v, k) !in ledger {
      forall i | 0 <= i < |ledger| ensures ledger[i] != RobotsSlot(v, k) {}
    }
    var base, count := pool.Reserve(v, ROBOTS_POOL);
    return RobotsPool(base, count);
  }

  // ----- bot-rate tables ------------------------------------------------------------

  ghost predicate Confirms(ledger: seq<Owner>, v: nat, h: Holder) {
    h.slot < |ledger| && ledger[h.slot] == BotRate(v, h.who)
  }

  /** `h` sits somewhere in the table. */
  ghost predicate Sits(t: RateTable, h: Holder) {
    || (exists s :: s in t.bySlug && t.bySlug[s] == h)
    || (exists name :: name in t.shared.groupTotals && t.shared.groupTotals[name] == h)
    || Some(h) == t.shared.unknownBot || Some(h) == t.shared.noUa || Some(h) == t.shared.fakeBot
    || Some(h) == t.shared.fallback || Some(h) == t.shared.grand
  }

  ghost predicate TableOwned(ledger: seq<Owner>, v: nat, t: RateTable) {
    forall h {:trigger Sits(t, h)} :: Sits(t, h) ==> Confirms(ledger, v, h)
  }

  ghost predicate TablesOk(ledger: seq<Owner>, tables: seq<RateTable>) {
    forall v {:trigger tables[v]} :: 0 <= v < |tables| ==> TableOwned(ledger, v, tables[v])
  }

  lemma TablesGrow(ledger: seq<Owner>, ledger': seq<Owner>, tables: seq<RateTable>)
    requires TablesOk(ledger, tables) && ledger <= ledger'
    ensures TablesOk(ledger', tables)
  {
    forall v | 0 <= v < |tables| ensures TableOwned(ledger', v, tables[v]) {
      assert TableOwned(ledger, v, tables[v]);
      forall h | Sits(tables[v], h) ensures Confirms(ledger', v, h) {
        assert Confirms(ledger, v, h);
      }
    }
  }

  lemma InitOwned(ctx: Ctx, t: RateTable, base: seq<Owner>, ledger: seq<Owner>, size: nat, ok: bool)
    requires Built(ctx, Complete(ctx), t.bySlug, base, ledger, size, ok) && SharedOk(ctx, ledger, t.shared, ok)
    ensures TableOwned(ledger, ctx.v, t)
  {
    forall h | Sits(t, h) ensures Confirms(ledger, ctx.v, h) {
      if s :| s in t.bySlug && t.bySlug[s] == h {
        assert OwnedBy(ctx, ledger, t.bySlug[s]);
      } else if name :| name in t.shared.groupTotals && t.shared.groupTotals[name] == h {
        assert Rests(ctx, ledger, Some(h), GroupTotal(name), GroupLimit(ctx.entries, |ctx.entries|, name), ok);
      }
    }
  }

  /** No bot-rate counter of virtual host `v` or later has been handed out. */
  ghost predicate RatesBefore(ledger: seq<Owner>, v: nat) {
    forall i {:trigger ledger[i]} :: 0 <= i < |ledger| ==> (ledger[i].BotRate? ==> ledger[i].vhost < v)
  }

  /** The table is what the passes build for the host in some context of its configuration,
      starting where the hosts before it left the pool. */
  ghost predicate Resolved(vh: Vhost, resolve: string -> seq<string>, v: nat, known: seq<string>, t: RateTable,
                           ledger: seq<Owner>, size: nat) {
    exists ctx, from: nat, to: nat, ok {:trigger BuiltFor(vh, resolve, v, known, t, ctx, ledger, from, to, size, ok)} ::
      from <= to <= |ledger| && BuiltFor(vh, resolve, v, known, t, ctx, ledger, from, to, size, ok)
  }

  ghost predicate BuiltFor(vh: Vhost, resolve: string -> seq<string>, v: nat, known: seq<string>, t: RateTable,
                           ctx: Ctx, ledger: seq<Owner>, from: nat, to: nat, size: nat, ok: bool)
    requires from <= to <= |ledger|
  {
    && ContextOf(vh, resolve, v, known, ctx)
    && Built(ctx, Complete(ctx), t.bySlug, ledger[..from], ledger[..to], size, ok) && SharedOk(ctx, ledger[..to], t.shared, ok)
  }

  ghost predicate AllResolved(vhosts: seq<Vhost>, resolve: string -> seq<string>, known: seq<string>,
                              tables: seq<RateTable>, ledger: seq<Owner>, size: nat)
    requires |tables| <= |vhosts|
  {
    forall v {:trigger tables[v]} :: 0 <= v < |tables| ==> Resolved(vhosts[v], resolve, v, known, tables[v], ledger, size)
  }

  lemma {:induction false} ResolvedGrow(vhosts: seq<Vhost>, resolve: string -> seq<string>, known: seq<string>,
                                        tables: seq<RateTable>, ledger: seq<Owner>, ledger': seq<Owner>, size: nat)
    requires |tables| <= |vhosts| && AllResolved(vhosts, resolve, known, tables, ledger, size) && ledger <= ledger'
    ensures AllResolved(vhosts, resolve, known, tables, ledger', size)
  {
    forall v | 0 <= v < |tables| ensures Resolved(vhosts[v], resolve, v, known, tables[v], ledger', size) {
      assert Resolved(vhosts[v], resolve, v, known, tables[v], ledger, size);
      var ctx, from: nat, to: nat, ok :| from <= to <= |ledger| &&
        BuiltFor(vhosts[v], resolve, v, known, tables[v], ctx, ledger, from, to, size, ok);
      assert ledger'[..from] == ledger[..from] && ledger'[..to] == ledger[..to];
      assert BuiltFor(vhosts[v], resolve, v, known, tables[v], ctx, ledger', from, to, size, ok);
    }
  }

  method InitRates(vhosts: seq<Vhost>, resolve: string -> seq<string>, known: seq<string>, pool: Pool)
      returns (tables: seq<RateTable>)
    requires pool.Valid() && RatesBefore(pool.ledger, 0)
    modifies pool
    ensures pool.Valid() && old(pool.ledger) <= pool.ledger
    ensures |tables| == |vhosts| && TablesOk(pool.ledger, tables)
    ensures AllResolved(vhosts, resolve, known, tables, pool.ledger, pool.size)
  {
    tables := [];
    for v := 0 to |vhosts|
      invariant pool.Valid() && old(pool.ledger) <= pool.ledger && RatesBefore(pool.ledger, v)
      invariant |tables| == v && TablesOk(pool.ledger, tables)
      invariant AllResolved(vhosts, resolve, known, tables, pool.ledger, pool.size)
    {
      ghost var ledger := pool.ledger;
      forall w ensures BotRate(v, w) !in ledger {
        forall i | 0 <= i < |ledger| ensures ledger[i] != BotRate(v, w) {}
      }
      var t, ok;
      ghost var ctx;
      t, ok, ctx := InitVhost(vhosts[v], resolve, v, known, pool);
      InitOwned(ctx, t, ledger, pool.ledger, pool.size, ok);
      RatesStep(ctx, t.bySlug, ledger, pool.ledger, pool.size, ok);
      TablesGrow(ledger, pool.ledger, tables);
      ResolvedGrow(vhosts, resolve, known, tables, ledger, pool.ledger, pool.size);
      assert pool.ledger[..|ledger|] == ledger && pool.ledger[..|pool.ledger|] == pool.ledger;
      assert BuiltFor(vhosts[v], resolve, v, known, t, ctx, pool.ledger, |ledger|, |pool.ledger|, pool.size, ok);
      tables := tables + [t];
    }
  }

  lemma RatesStep(ctx: Ctx, m: map<string, Holder>, base: seq<Owner>, ledger: seq<Owner>, size: nat, ok: bool)
    requires RatesBefore(base, ctx.v) && Built(ctx, Complete(ctx), m, base, ledger, size, ok)
    ensures RatesBefore(ledger, ctx.v + 1)
  {
    forall i | 0 <= i < |ledger| ensures ledger[i].BotRate? ==> ledger[i].vhost < ctx.v + 1 {
      if i < |base| {
        assert ledger[i] == base[i];
      } else {
        assert NewOwner(ctx, Complete(ctx), ledger[i]);
      }
    }
  }

  // ----- all of it --------------------------------------------------------------------

  /** Every place that holds a slot index once start-up is done. */
  datatype Place =
    | WindowOf(e: RuleEntry)
    | SlugOf(e: RuleEntry, slug: string)
    | RobotsAt(vhost: nat, k: nat)
    | CounterOf(vhost: nat, who: RateOwner)

  ghost predicate HoldsSlot(rules: set<RuleEntry>, pools: seq<RobotsPool>, tables: seq<RateTable>, at: Place, slot: int)
    reads rules
  {
    match at
    case WindowOf(e) => e in rules && e.shmSlot >= 0 && slot == e.shmSlot
    case SlugOf(e, slug) => e in rules && slug in e.slugSlots && slot == e.slugSlots[slug]
    case RobotsAt(v, k) => v < |pools| && k < pools[v].size && slot == pools[v].base + k
    case CounterOf(v, who) => v < |tables| && exists h :: Sits(tables[v], h) && h.who == who && slot == h.slot
  }

  /** The allocators in `post_config` order, over any list of virtual hosts that may share rule
      entries: whatever the pool size, no slot index is held in two places. */
  method PostConfig(ruleLists: seq<seq<RuleEntry>>, robotsConfigured: seq<bool>, vhosts: seq<Vhost>,
                    resolve: string -> seq<string>, known: seq<string>, pool: Pool, ghost rules: set<RuleEntry>)
      returns (pools: seq<RobotsPool>, tables: seq<RateTable>)
    requires pool.Valid() && pool.ledger == []
    requires forall e :: e in rules ==> e.shmSlot == -1 && e.slugSlots == map[]
    requires forall v, i {:trigger ruleLists[v][i]} :: 0 <= v < |ruleLists| && 0 <= i < |ruleLists[v]| ==> ruleLists[v][i] in rules
    modifies pool, rules
    ensures pool.Valid() && pool.next == |pool.ledger| <= pool.size
    ensures forall a, b, slot :: HoldsSlot(rules, pools, tables, a, slot) && HoldsSlot(rules, pools, tables, b, slot) ==> a == b
    ensures forall a, slot :: HoldsSlot(rules, pools, tables, a, slot) ==> 0 <= slot < pool.next
    // Everybody is served until the pool runs out.
    ensures forall v, i {:trigger ruleLists[v][i]} :: 0 <= v < |ruleLists| && 0 <= i < |ruleLists[v]| ==>
      Served(ruleLists[v][i], pool.ledger, pool.size)
    ensures AllFilled(rules, known, pool.ledger, pool.size)
    ensures |pools| == |robotsConfigured| &&
      forall v {:trigger pools[v]} :: 0 <= v < |pools| ==> PoolSized(robotsConfigured[v], pools[v], pool.ledger, pool.size)
    ensures |tables| == |vhosts| && AllResolved(vhosts, resolve, known, tables, pool.ledger, pool.size)
  {
    WireAll(ruleLists, known, pool, rules);
    ghost var l1 := pool.ledger;
    pools := ReserveRobots(robotsConfigured, pool);
    tables := InitRates(vhosts, resolve, known, pool);
    RulesGrow(rules, known, l1, pool.ledger, pool.size);
    forall a, slot | HoldsSlot(rules, pools, tables, a, slot)
      ensures 0 <= slot < |pool.ledger| && Backs(pool.ledger[slot], known, a)
    {
      LedgerBacks(rules, known, pools, tables, pool.ledger, a, slot);
    }
    forall a, b, slot | HoldsSlot(rules, pools, tables, a, slot) && HoldsSlot(rules, pools, tables, b, slot) ensures a == b {
      LedgerBacks(rules, known, pools, tables, pool.ledger, a, slot);
      LedgerBacks(rules, known, pools, tables, pool.ledger, b, slot);
    }
  }

  lemma RulesGrow(rules: set<RuleEntry>, known: seq<string>, ledger: seq<Owner>, ledger': seq<Owner>, size: nat)
    requires RulesOk(rules, known, ledger) && AllFilled(rules, known, ledger, size) && ledger <= ledger'
    ensures RulesOk(rules, known, ledger') && AllFilled(rules, known, ledger', size)
  {
    forall e | e in rules ensures RuleOk(e, known, ledger') && Filled(e, known, ledger', size) {
      assert RuleOk(e, known, ledger) && Filled(e, known, ledger, size);
    }
  }

  /** The ledger entry that vouches for a place. */
  ghost predicate Backs(o: Owner, known: seq<string>, at: Place) {
    match at
    case WindowOf(e) => o == RuleWindow(e)
    case SlugOf(e, slug) => o.RuleRow? && o.e == e && o.row < |known| && known[o.row] == slug
    case RobotsAt(v, k) => o == RobotsSlot(v, k)
    case CounterOf(v, who) => o == BotRate(v, who)
  }

  lemma LedgerBacks(rules: set<RuleEntry>, known: seq<string>, pools: seq<RobotsPool>, tables: seq<RateTable>,
                    ledger: seq<Owner>, at: Place, slot: int)
    requires RulesOk(rules, known, ledger) && PoolsOk(ledger, pools) && TablesOk(ledger, tables)
    requires HoldsSlot(rules, pools, tables, at, slot)
    ensures 0 <= slot < |ledger| && Backs(ledger[slot], known, at)
  {
    match at
    case WindowOf(e) => assert RuleOk(e, known, ledger);
    case SlugOf(e, slug) =>
      assert RuleOk(e, known, ledger);
      assert RowOk(e, known, ledger, slug);
    case RobotsAt(v, k) =>
      assert PoolOk(ledger, v, pools[v]);
      assert RobotsSlot(v, k) == ledger[pools[v].base + k];
    case CounterOf(v, who) =>
      var h :| Sits(tables[v], h) && h.who == who && slot == h.slot;
      assert TableOwned(ledger, v, tables[v]);
  }
}
