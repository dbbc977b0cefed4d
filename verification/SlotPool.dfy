/** The shared pool of rate counters: one cursor, handed out at start-up to several owners. */
module SlotPool {
  import opened Wrappers
  import opened Collections

  datatype Limit = Limit(budget: nat, windowMs: nat, observe: bool)

  /** What a bot-rate counter of one virtual host counts. */
  datatype RateOwner =
    | RobotsGroup(g: nat)                  // slugs governed by one robots.txt group
    | Directive(i: nat)                    // slugs of one specific directive
    | BotgroupSlug(i: nat, slug: string)   // one slug under a per-bot botgroup directive
    | WildcardSlug(slug: string)           // one slug under the wildcard
    | UnknownBot | NoUa | FakeBot | Fallback
    | GroupTotal(name: string)             // every bot of a botgroup together
    | GrandTotal                           // every bot together

  /** A rule carrying a window. Merged virtual hosts can share one entry. */
  class RuleEntry {
    const budget: nat
    const perSlug: bool
    var shmSlot: int
    var slugSlots: map<string, nat>

    constructor (budget: nat, perSlug: bool)
      ensures this.budget == budget && this.perSlug == perSlug && shmSlot == -1 && slugSlots == map[]
    {
      this.budget, this.perSlug, shmSlot, slugSlots := budget, perSlug, -1, map[];
    }
  }

  datatype Owner =
    | RuleWindow(e: RuleEntry)
    | RuleRow(e: RuleEntry, row: nat)      // counter of one directory row under a per-slug rule
    | RobotsSlot(vhost: nat, k: nat)       // a slot of a virtual host's robots.txt pool
    | BotRate(vhost: nat, who: RateOwner)

  class Pool {
    const size: nat
    var next: nat
    /** Who was given each slot below the cursor. */
    ghost var ledger: seq<Owner>

    ghost predicate Valid()
      reads this
    {
      next == |ledger| <= size && Distinct(ledger)
    }

    constructor (size: nat)
      ensures Valid() && this.size == size && ledger == []
    {
      this.size, next, ledger := size, 0, [];
    }

    /** Hands out the next slot, or none when the pool is exhausted. */
    method Take(ghost owner: Owner) returns (slot: Option<nat>)
      requires Valid() && (|ledger| < size ==> owner !in ledger)
      modifies this
      ensures Valid()
      ensures if old(|ledger|) < size then slot == Some(old(|ledger|)) && ledger == old(ledger) + [owner]
              else slot == None && ledger == old(ledger)
    {
      if next >= size { return None; }
      slot := Some(next);
      next, ledger := next + 1, ledger + [owner];
    }

    /** Reserves a block of up to `want` slots for a virtual host's robots.txt pool, clipped
        to what is left. */
    method Reserve(ghost v: nat, want: nat) returns (base: nat, count: nat)
      requires Valid() && forall k {:trigger RobotsSlot(v, k)} :: RobotsSlot(v, k) !in ledger
      modifies this
      ensures Valid() && base == old(next) && count == (if old(next) + want <= size then want else size - old(next))
      ensures ledger == old(ledger) + Block(v, count)
    {
      base, count := next, want;
      if base + count > size {
        count := size - base;   // never negative: the cursor stays within the pool
      }
      ledger := ledger + Block(v, count);
      next := next + count;
    }
  }

  function Block(v: nat, count: nat): (b: seq<Owner>)
    ensures |b| == count && forall k :: 0 <= k < count ==> b[k] == RobotsSlot(v, k)
  {
    seq(count, k requires 0 <= k < count => RobotsSlot(v, k))
  }
}
