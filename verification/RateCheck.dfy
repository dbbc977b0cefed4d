/**
 The request path of bot rate limiting: which counter a client is charged to, the admission
 by compare-and-swap on a packed 32-bit window, and the three-tier charge loop that decides
 the reply and its Retry-After. What other workers do to the shared counters in the meantime
 is arbitrary: every word loaded from shared memory is an input.
 */
module RateCheck {
  import opened Wrappers
  import opened SlotPool
  import opened RobotsClaims
  import opened BotRate

  const WORD := 0x1_0000_0000
  const ATTEMPTS := 32

  /** A counter word: window start in milliseconds, reduced to 32 bits, and count. */
  datatype Window = Window(start: int, count: nat)

  /** The unsigned 32-bit difference. */
  function Since(now: int, start: int): nat {
    (now - start) % WORD
  }

  predicate Expired(w: Window, l: Limit, now: int) {
    Since(now, w.start) >= l.windowMs
  }

  predicate Full(w: Window, l: Limit, now: int) {
    !Expired(w, l, now) && w.count >= l.budget
  }

  /** The word that charging one request installs. */
  function Charge(w: Window, l: Limit, now: int): Window {
    if Expired(w, l, now) then Window(now % WORD, 1) else Window(w.start, w.count + 1)
  }

  // ----- one counter, many workers ------------------------------------------------------

  /** Successive words of one counter: each installed by a worker's successful swap over the
      word before it, at that worker's own clock reading. */
  ghost predicate History(h: seq<Window>, clocks: seq<int>, l: Limit) {
    && |h| == |clocks| + 1
    && forall k {:trigger clocks[k]} :: 0 <= k < |clocks| ==> !Full(h[k], l, clocks[k]) && h[k + 1] == Charge(h[k], l, clocks[k])
  }

  /** No swap of `from..to` rolled the window. */
  ghost predicate NoRoll(h: seq<Window>, clocks: seq<int>, l: Limit, from: nat, to: nat) {
    forall k {:trigger clocks[k]} :: from <= k < to <= |clocks| && k < |h| ==> !Expired(h[k], l, clocks[k])
  }

  /** Since the roll that started it, a window has admitted exactly as many requests as its
      count says, all under one start, and no more than the budget (one, if that is zero). */
  lemma {:induction false} WindowBudget(h: seq<Window>, clocks: seq<int>, l: Limit, roll: nat, i: nat)
    requires History(h, clocks, l) && roll < i <= |clocks|
    requires Expired(h[roll], l, clocks[roll]) && NoRoll(h, clocks, l, roll + 1, i)
    ensures h[i].count == i - roll && h[i].start == clocks[roll] % WORD
    ensures h[i].count <= if l.budget == 0 then 1 else l.budget
  {
    assert !Full(h[i - 1], l, clocks[i - 1]) && h[i] == Charge(h[i - 1], l, clocks[i - 1]);
    if i > roll + 1 {
      forall k {:trigger clocks[k]} | roll + 1 <= k < i - 1 <= |clocks| ensures !Expired(h[k], l, clocks[k]) {}
      assert NoRoll(h, clocks, l, roll + 1, i - 1);
      WindowBudget(h, clocks, l, roll, i - 1);
      assert !Expired(h[i - 1], l, clocks[i - 1]);
    }
  }

  /** A window of length zero never refuses. */
  lemma ZeroWindowAdmits(w: Window, l: Limit, now: int)
    requires l.windowMs == 0
    ensures !Full(w, l, now)
  {}

  // ----- one admission --------------------------------------------------------------------

  /** What shared memory shows one admission: its clock, the word each attempt loads, the
      attempt whose swap succeeds (past the last one when all are lost), and the word loaded
      again after a refusal. */
  datatype View = View(now: int, loads: seq<Window>, wins: nat, reload: Window)

  ghost predicate AllLoaded(views: seq<View>) {
    forall i :: 0 <= i < |views| ==> |views[i].loads| == ATTEMPTS
  }

  /** Some attempt made before a swap succeeds finds the window full. */
  ghost predicate Refuses(v: View, l: Limit) {
    exists k :: 0 <= k < |v.loads| && k <= v.wins && Full(v.loads[k], l, v.now)
  }

  /** What the admission installs: nothing on a refusal, nor when every swap was lost. */
  ghost function Installed(v: View, l: Limit): Option<Window> {
    if !Refuses(v, l) && v.wins < |v.loads| then Some(Charge(v.loads[v.wins], l, v.now)) else None
  }

  /** `bs_rate_counter_admit`. */
  method Admit(v: View, l: Limit) returns (ok: bool, swapped: Option<Window>)
    requires |v.loads| == ATTEMPTS
    ensures ok <==> !Refuses(v, l)
    ensures swapped == Installed(v, l)
  {
    var i := 0;
    while i < ATTEMPTS
      invariant 0 <= i <= ATTEMPTS && i <= v.wins
      invariant forall k :: 0 <= k < i ==> !Full(v.loads[k], l, v.now)
    {
      var snap := v.loads[i];
      var cand;
      if Since(v.now, snap.start) >= l.windowMs {
        cand := Window(v.now % WORD, 1);
      } else {
        if snap.count >= l.budget { return false, None; }
        cand := Window(snap.start, snap.count + 1);
      }
      if i == v.wins {
        return true, Some(cand);
      }
      i := i + 1;
    }
    return true, None;
  }

  /** Successive successful admissions on one counter: a swap succeeds only over the word it
      loaded, which is the one the swap before it installed. */
  ghost predicate Chained(views: seq<View>, h: seq<Window>, l: Limit) {
    && |h| == |views| + 1
    && forall k {:trigger views[k]} :: 0 <= k < |views| ==> Succeeds(views[k], h[k], h[k + 1], l)
  }

  ghost predicate Succeeds(v: View, before: Window, after: Window, l: Limit) {
    v.wins < |v.loads| && v.loads[v.wins] == before && Installed(v, l) == Some(after)
  }

  function Clocks(views: seq<View>): (cs: seq<int>)
    ensures |cs| == |views| && forall k :: 0 <= k < |cs| ==> cs[k] == views[k].now
  {
    seq(|views|, k requires 0 <= k < |views| => views[k].now)
  }

  /** What the admissions of any number of workers leave behind is a history. */
  lemma AdmissionsFormHistory(views: seq<View>, h: seq<Window>, l: Limit)
    requires Chained(views, h, l)
    ensures History(h, Clocks(views), l)
  {
    var clocks := Clocks(views);
    forall k {:trigger clocks[k]} | 0 <= k < |clocks| ensures !Full(h[k], l, clocks[k]) && h[k + 1] == Charge(h[k], l, clocks[k]) {
      assert Succeeds(views[k], h[k], h[k + 1], l);
    }
  }

  // ----- the tier loop ----------------------------------------------------------------------

  /** A budget that applies to the request; a negative slot means it has no counter. */
  datatype Tier = Tier(slot: int, limit: Limit)

  ghost predicate Trips(tiers: seq<Tier>, views: seq<View>, i: nat)
    requires |tiers| == |views|
  {
    i < |tiers| && tiers[i].slot >= 0 && Refuses(views[i], tiers[i].limit)
  }

  /** The whole seconds a refusing tier asks the client to wait, as the code computes them:
      in unsigned 32-bit arithmetic, from the clock read before the loop. */
  function Wait(l: Limit, reload: Window, now: int): nat {
    var gone := Since(now, reload.start);
    var left := if gone < l.windowMs then l.windowMs - gone else 0;
    var seconds := (left + 999) % WORD / 1000;
    if seconds < 1 then 1 else seconds
  }

  /** A swap on a tier's counter. */
  datatype Swap = Swap(tier: nat, slot: nat, word: Window)

  /** The swap tier `k` makes, if any: it has a slot and its own admission installs a word. */
  ghost function Own(tiers: seq<Tier>, views: seq<View>, k: nat): Option<Swap>
    requires k < |tiers| == |views|
  {
    var t, word := tiers[k], Installed(views[k], tiers[k].limit);
    if t.slot >= 0 && word.Some? then Some(Swap(k, t.slot, word.value)) else None
  }

  /** The swaps of the first `n` tiers, each charged on its own account. */
  ghost function Swaps(tiers: seq<Tier>, views: seq<View>, n: nat): seq<Swap>
    requires n <= |tiers| == |views|
  {
    if n == 0 then []
    else
      var before, own := Swaps(tiers, views, n - 1), Own(tiers, views, n - 1);
      if own.Some? then before + [own.value] else before
  }

  /** The longest wait among the refusing ones of the first `n` tiers; zero if none refuses. */
  ghost function Longest(tiers: seq<Tier>, views: seq<View>, now: int, n: nat): nat
    requires n <= |tiers| == |views|
  {
    if n == 0 then 0
    else
      var before, own := Longest(tiers, views, now, n - 1), Wait(tiers[n - 1].limit, views[n - 1].reload, now);
      if Trips(tiers, views, n - 1) && own > before then own else before
  }

  /** The first refusing one of the first `n` tiers. */
  ghost function FirstTrip(tiers: seq<Tier>, views: seq<View>, n: nat): Option<nat>
    requires n <= |tiers| == |views|
  {
    if n == 0 then None
    else
      var before := FirstTrip(tiers, views, n - 1);
      if before == None && Trips(tiers, views, n - 1) then Some(n - 1) else before
  }

  lemma {:induction false} FirstTripIs(tiers: seq<Tier>, views: seq<View>, n: nat)
    requires n <= |tiers| == |views|
    ensures match FirstTrip(tiers, views, n)
      case None => forall i: nat :: i < n ==> !Trips(tiers, views, i)
      case Some(f) => f < n && Trips(tiers, views, f) && forall i: nat :: i < f ==> !Trips(tiers, views, i)
  {
    if n > 0 { FirstTripIs(tiers, views, n - 1); }
  }

  /** It is a wait of one of them, and no less than any. */
  lemma {:induction false} LongestIs(tiers: seq<Tier>, views: seq<View>, now: int, n: nat)
    requires n <= |tiers| == |views|
    ensures forall i: nat {:trigger Trips(tiers, views, i)} :: i < n && Trips(tiers, views, i) ==>
      Wait(tiers[i].limit, views[i].reload, now) <= Longest(tiers, views, now, n)
    ensures Longest(tiers, views, now, n) > 0 ==>
      exists i: nat {:trigger Trips(tiers, views, i)} ::
        i < n && Trips(tiers, views, i) && Longest(tiers, views, now, n) == Wait(tiers[i].limit, views[i].reload, now)
    ensures Longest(tiers, views, now, n) == 0 <==> FirstTrip(tiers, views, n) == None
  {
    if n > 0 { LongestIs(tiers, views, now, n - 1); }
  }

  method ChargeTiers(tiers: seq<Tier>, views: seq<View>, now: int) returns (tripped: Option<nat>, retry: nat, swaps: seq<Swap>)
    requires |tiers| == |views| && AllLoaded(views)
    ensures tripped == FirstTrip(tiers, views, |tiers|)
    ensures retry == Longest(tiers, views, now, |tiers|)
    ensures swaps == Swaps(tiers, views, |tiers|)
  {
    tripped, retry, swaps := None, 0, [];
    for i := 0 to |tiers|
      invariant tripped == FirstTrip(tiers, views, i)
      invariant retry == Longest(tiers, views, now, i)
      invariant swaps == Swaps(tiers, views, i)
    {
      var t := tiers[i];
      if t.slot < 0 { continue; }
      var ok, swapped := Admit(views[i], t.limit);
      if swapped.Some? { swaps := swaps + [Swap(i, t.slot, swapped.value)]; }
      if ok {
        assert !Trips(tiers, views, i);
        continue;
      }
      assert Trips(tiers, views, i);
      if tripped == None { tripped := Some(i); }
      var gone := Since(now, views[i].reload.start);
      var left := if gone < t.limit.windowMs then t.limit.windowMs - gone else 0;
      var rt := (left + 999) % WORD / 1000;
      if rt < 1 { rt := 1; }
      if rt > retry { retry := rt; }
    }
  }

  /** Whatever the other tiers decided, each tier with a counter is charged exactly once: the
      swaps are, in order of tier and without repetition, those of the tiers whose own
      admission installs a word. */
  lemma {:induction false} ChargedOnce(tiers: seq<Tier>, views: seq<View>, n: nat)
    requires n <= |tiers| == |views|
    ensures var swaps := Swaps(tiers, views, n);
      && (forall j {:trigger swaps[j]} :: 0 <= j < |swaps| ==> swaps[j].tier < n && Own(tiers, views, swaps[j].tier) == Some(swaps[j]))
      && (forall j, k :: 0 <= j < k < |swaps| ==> swaps[j].tier < swaps[k].tier)
      && (forall i {:trigger Own(tiers, views, i)} :: 0 <= i < n && Own(tiers, views, i).Some? ==> Own(tiers, views, i).value in swaps)
  {
    if n > 0 { ChargedOnce(tiers, views, n - 1); }
  }

  // ----- Retry-After in true time -------------------------------------------------------------

  /** Milliseconds a window that truly started at `start` still has at `now`. */
  function Remaining(l: Limit, start: int, now: int): nat {
    if start + l.windowMs > now then start + l.windowMs - now else 0
  }

  /** `s` is the least whole number of seconds, at least one, that outlasts `ms`. */
  predicate LeastSeconds(s: nat, ms: nat) {
    s >= 1 && 1000 * s >= ms && (s > 1 ==> 1000 * (s - 1) < ms)
  }

  /** Reducing both times to 32 bits keeps their difference modulo 2^32. */
  lemma SinceOf(now: int, start: int)
    ensures Since(now % WORD, start % WORD) == (now - start) % WORD
  {}

  /** The code rounds `ms` up in 32 bits: from 2^32 - 999 on the sum wraps. */
  predicate Wraps(ms: nat) {
    ms + 999 >= WORD
  }

  /** For every window a 32-bit field can hold: the wait of one refusing tier is the least that
      outlasts its window exactly when the true age of the window is not negative and fits in
      32 bits - no other worker rolled it after the clock was read - and the rounding does not
      wrap, or one second is both what is true and, for whatever reason, what is said. */
  lemma {:induction false} WaitExact(l: Limit, start: int, count: nat, now: int)
    requires l.windowMs < WORD
    ensures var age, rest, seen := now - start, Remaining(l, start, now), Remaining(l, 0, (now - start) % WORD);
      LeastSeconds(Wait(l, Window(start % WORD, count), now % WORD), rest) <==>
      (0 <= age < WORD && !Wraps(rest)) || (rest <= 1000 && (seen <= 1000 || Wraps(seen)))
  {
    var age := now - start;
    SinceOf(now, start);
    assert age < 0 ==> age % WORD >= age + WORD;
    assert age >= WORD ==> age % WORD <= age - WORD;
  }

  /** Every word an admission loads holds a window truly begun at `starts[k]`, not after its
      clock and less than 2^32 milliseconds before. */
  ghost predicate Begun(v: View, starts: seq<int>, now: int) {
    && |starts| == |v.loads| && v.now % WORD == now % WORD
    && forall k {:trigger starts[k]} :: 0 <= k < |starts| ==> v.loads[k].start == starts[k] % WORD && 0 <= now - starts[k] < WORD
  }

  lemma TrueAge(now: int, clock: int, start: int)
    requires clock % WORD == now % WORD && 0 <= now - start < WORD
    ensures Since(clock, start % WORD) == now - start
  {
    SinceOf(now, start);
    SinceOf(clock, start);
  }

  /** When a window ends, in true time: an admission refuses exactly when an attempt before its
      swap finds a window that has not run its length with the budget used up; a swap starts a
      window exactly when the one it replaces has run its length, and counts one more if not. */
  lemma {:induction false} AdmitsInTime(v: View, l: Limit, starts: seq<int>, now: int)
    requires Begun(v, starts, now)
    ensures Refuses(v, l) <==>
      exists k {:trigger starts[k]} :: 0 <= k < |starts| && k <= v.wins && now < starts[k] + l.windowMs && v.loads[k].count >= l.budget
    ensures !Refuses(v, l) && v.wins < |starts| ==> Installed(v, l) == Some(
      if now >= starts[v.wins] + l.windowMs then Window(now % WORD, 1)
      else Window(starts[v.wins] % WORD, v.loads[v.wins].count + 1))
    ensures Refuses(v, l) || v.wins >= |starts| ==> Installed(v, l) == None
  {
    forall k | 0 <= k < |starts| ensures Full(v.loads[k], l, v.now) <==> now < starts[k] + l.windowMs && v.loads[k].count >= l.budget {
      TrueAge(now, v.now, starts[k]);
    }
    if v.wins < |starts| { TrueAge(now, v.now, starts[v.wins]); }
    if k :| 0 <= k < |v.loads| && k <= v.wins && Full(v.loads[k], l, v.now) {
      assert now < starts[k] + l.windowMs && v.loads[k].count >= l.budget;
    }
  }

  /** Swap `k` counted one more under the same start. */
  ghost predicate Counts(h: seq<Window>, k: nat) {
    k + 1 < |h| && h[k + 1] == Window(h[k].start, h[k].count + 1)
  }

  /** Swaps whose clocks do not run backwards. */
  ghost predicate Forward(clocks: seq<int>) {
    forall i, j :: 0 <= i <= j < |clocks| ==> clocks[i] <= clocks[j]
  }

  /** Between two swaps that do not just count one more, at least a window's length of true
      time has passed, if less than 2^32 milliseconds have. */
  lemma {:induction false} RollsApart(h: seq<Window>, clocks: seq<int>, l: Limit, r: nat, i: nat)
    requires History(h, clocks, l) && Forward(clocks) && r < i < |clocks|
    requires !Counts(h, r) && !Counts(h, i) && clocks[i] - clocks[r] < WORD
    ensures clocks[i] >= clocks[r] + l.windowMs
  {
    var j := r + 1;
    assert h[j] == Charge(h[r], l, clocks[r]) && h[j] == Window(clocks[r] % WORD, 1);
    while Counts(h, j)
      invariant r < j <= i && h[j].start == clocks[r] % WORD
      decreases i - j
    {
      assert !Full(h[j], l, clocks[j]) && h[j + 1] == Charge(h[j], l, clocks[j]);
      j := j + 1;
    }
    assert h[j + 1] == Charge(h[j], l, clocks[j]);
    assert clocks[r] <= clocks[j] <= clocks[i];
    TrueAge(clocks[j], clocks[j], clocks[r]);
  }

  /** Every refusing tier's window truly began at `starts[i]`, not after the clock was read
      and less than 2^32 milliseconds before, and is short enough for the rounding not to wrap
      (a day, the longest a directive takes, is well below that). */
  ghost predicate Timely(tiers: seq<Tier>, views: seq<View>, starts: seq<int>, now: int)
    requires |tiers| == |views| == |starts|
  {
    forall i: nat {:trigger Trips(tiers, views, i)} :: i < |tiers| && Trips(tiers, views, i) ==>
      && views[i].reload.start == starts[i] % WORD && 0 <= now - starts[i] < WORD
      && !Wraps(tiers[i].limit.windowMs)
  }

  /** The Retry-After of a refusal is the least whole number of seconds, at least one, that
      outlasts the rest of every refusing tier's window, across any wraparound of the 32-bit
      clock. */
  lemma {:induction false} RetryOutlasts(tiers: seq<Tier>, views: seq<View>, starts: seq<int>, now: int, logOnly: bool,
                                         reply: Reply, swaps: seq<Swap>)
    requires |tiers| == |views| == |starts| > 0 && Timely(tiers, views, starts, now)
    requires Settles(tiers, views, now % WORD, logOnly, reply, swaps) && (reply.TooMany? || reply.Unavailable?)
    ensures reply.retry >= 1 && forall i: nat {:trigger Trips(tiers, views, i)} :: Trips(tiers, views, i) ==>
      1000 * reply.retry >= Remaining(tiers[i].limit, starts[i], now)
    ensures reply.retry > 1 ==>
      exists i: nat :: Trips(tiers, views, i) && 1000 * (reply.retry - 1) < Remaining(tiers[i].limit, starts[i], now)
  {
    LongestIs(tiers, views, now % WORD, |tiers|);
    forall i: nat {:trigger Trips(tiers, views, i)} | Trips(tiers, views, i)
      ensures LeastSeconds(Wait(tiers[i].limit, views[i].reload, now % WORD), Remaining(tiers[i].limit, starts[i], now))
    {
      WaitExact(tiers[i].limit, starts[i], views[i].reload.count, now);
    }
  }

  /** A later view of a counter in which nothing has changed since: the first swap succeeds. */
  ghost predicate Untouched(v: View, before: Window, later: int) {
    v.loads != [] && v.wins == 0 && v.loads[0] == before && v.now % WORD == later % WORD
  }

  /** A client that waits out Retry-After is admitted by every tier that refused it and whose
      window nobody has touched, and starts a window there. */
  lemma {:induction false} WaitedIsAdmitted(tiers: seq<Tier>, views: seq<View>, starts: seq<int>, now: int, logOnly: bool,
                                            reply: Reply, swaps: seq<Swap>, later: int, again: View, i: nat)
    requires |tiers| == |views| == |starts| > 0 && Timely(tiers, views, starts, now)
    requires Settles(tiers, views, now % WORD, logOnly, reply, swaps) && (reply.TooMany? || reply.Unavailable?)
    requires Trips(tiers, views, i) && later >= now + 1000 * reply.retry && later - starts[i] < WORD
    requires Untouched(again, views[i].reload, later)
    ensures !Refuses(again, tiers[i].limit) && Installed(again, tiers[i].limit) == Some(Window(later % WORD, 1))
  {
    RetryOutlasts(tiers, views, starts, now, logOnly, reply, swaps);
    assert later >= starts[i] + tiers[i].limit.windowMs;
    TrueAge(later, again.now, starts[i]);
  }

  /** Without that condition it can fall short. The clock reads 5000; at 5001 another worker
      rolls a spent window of one request a minute; the admission then finds it full, and the
      client is answered 429 with one second where a minute remains. */
  lemma {:induction false} RolledMeanwhile(spent: Window, tiers: seq<Tier>, views: seq<View>, start: int, now: int)
    requires now == 5_000 && start == 5_001 && tiers == [Tier(0, Limit(1, 60_000, false))] && spent == Window(WORD - 100_000, 1)
    requires |views| == 1 && AllLoaded(views) && views[0].now == 5_002
    requires views[0].loads[0] == views[0].reload == Window(5_001, 1)
    ensures History([spent, views[0].reload], [start], tiers[0].limit)
    ensures Trips(tiers, views, 0) && Longest(tiers, views, now, 1) == 1 && Remaining(tiers[0].limit, start, now) == 60_001
    ensures forall reply, swaps :: Settles(tiers, views, now, false, reply, swaps) ==> reply == TooMany(1)
  {
    assert [start][0] == start;
    assert Full(views[0].loads[0], tiers[0].limit, views[0].now);
    assert Trips(tiers, views, 0);
    assert FirstTrip(tiers, views, 0) == None && Longest(tiers, views, now, 0) == 0;
  }

  // ----- which counter ------------------------------------------------------------------------

  /** What the classifier says of a client; an absent name is empty. */
  datatype Client = Client(known: string, verified: string, noUa: bool, unknownBot: bool, fakeBot: bool)

  ghost predicate Mapped(t: RateTable, name: string) {
    name != "" && name in t.bySlug
  }

  ghost predicate Named(c: Client) {
    c.known != "" || c.verified != ""
  }

  /** The counter a client is charged to, and the name it is logged under. A counter of its
      own comes first; a shared one only when it has none; the fallback only for a named bot
      that nothing else caught. */
  ghost predicate Chosen(t: RateTable, c: Client, h: Option<Holder>, name: string) {
    if Mapped(t, c.known) then h == Some(t.bySlug[c.known]) && name == c.known
    else if Mapped(t, c.verified) then h == Some(t.bySlug[c.verified]) && name == c.verified
    else if c.noUa && t.shared.noUa.Some? then h == t.shared.noUa && name == "no-ua"
    else if c.unknownBot && t.shared.unknownBot.Some? then h == t.shared.unknownBot && name == "unknownbot"
    else if c.fakeBot && t.shared.fakeBot.Some? then h == t.shared.fakeBot && name == "fake-bot"
    else if Named(c) && t.shared.fallback.Some? then
      h == t.shared.fallback && name == if c.known != "" then c.known else c.verified
    else h == None
  }

  method ChooseHolder(t: RateTable, c: Client) returns (h: Option<Holder>, name: string)
    ensures Chosen(t, c, h, name)
  {
    h, name := None, "";
    if c.known != "" && c.known in t.bySlug {
      h, name := Some(t.bySlug[c.known]), c.known;
    }
    if h == None && c.verified != "" && c.verified in t.bySlug {
      h, name := Some(t.bySlug[c.verified]), c.verified;
    }
    if h == None && c.noUa && t.shared.noUa.Some? { h, name := t.shared.noUa, "no-ua"; }
    if h == None && c.unknownBot && t.shared.unknownBot.Some? { h, name := t.shared.unknownBot, "unknownbot"; }
    if h == None && c.fakeBot && t.shared.fakeBot.Some? { h, name := t.shared.fakeBot, "fake-bot"; }
    if h == None && t.shared.fallback.Some? {
      var fallback := if c.known != "" then c.known else c.verified;
      if fallback != "" { h, name := t.shared.fallback, fallback; }
    }
  }

  /** The rule gives the name a counter of its own. */
  ghost predicate Claims(ctx: Ctx, name: string) {
    name != "" && Rule(ctx, Complete(ctx), name).Some?
  }

  ghost predicate IsWith(h: Option<Holder>, who: RateOwner, limit: Limit) {
    h.Some? && h.value.who == who && h.value.limit == limit
  }

  /** From configuration to request: with a pool that sufficed, a bot is charged to the counter
      the precedence rule names for its slug, else for its verified name. */
  lemma ChargedByRule(ctx: Ctx, t: RateTable, base: seq<Owner>, ledger: seq<Owner>, size: nat, c: Client,
                      h: Option<Holder>, name: string)
    requires Built(ctx, Complete(ctx), t.bySlug, base, ledger, size, true) && Chosen(t, c, h, name)
    requires Claims(ctx, c.known) || Claims(ctx, c.verified)
    ensures name == (if Claims(ctx, c.known) then c.known else c.verified)
    ensures var v := Rule(ctx, Complete(ctx), name); v.Some? && IsWith(h, v.value.who, v.value.limit)
  {
    TableIsRule(ctx, t.bySlug, base, ledger, size, c.known);
    TableIsRule(ctx, t.bySlug, base, ledger, size, c.verified);
  }

  /** A client the rule says nothing about is charged to a shared counter exactly when there is
      a wildcard and something is known of it, always at the wildcard's limit. Having no
      User-Agent counts before being unknown, that before being fake, and the fallback is left
      for a named bot that is none of these (one added to the directory since). */
  lemma ChargedInCommon(ctx: Ctx, t: RateTable, base: seq<Owner>, ledger: seq<Owner>, size: nat, c: Client,
                        h: Option<Holder>, name: string)
    requires Built(ctx, Complete(ctx), t.bySlug, base, ledger, size, true) && SharedOk(ctx, ledger, t.shared, true)
    requires Chosen(t, c, h, name) && !Claims(ctx, c.known) && !Claims(ctx, c.verified)
    ensures h.Some? <==> ctx.wild.Some? && (c.noUa || c.unknownBot || c.fakeBot || Named(c))
    ensures h.Some? ==> Some(h.value.limit) == ctx.wild
    ensures h.Some? ==> (h.value.who == NoUa <==> c.noUa)
    ensures h.Some? ==> (h.value.who == UnknownBot <==> c.unknownBot && !c.noUa)
    ensures h.Some? ==> (h.value.who == FakeBot <==> c.fakeBot && !c.noUa && !c.unknownBot)
    ensures h.Some? ==> (h.value.who == Fallback <==> Named(c) && !c.noUa && !c.unknownBot && !c.fakeBot)
    ensures h.Some? && c.noUa ==> name == "no-ua"
    ensures h.Some? && !c.noUa && c.unknownBot ==> name == "unknownbot"
    ensures h.Some? && !c.noUa && !c.unknownBot && c.fakeBot ==> name == "fake-bot"
    ensures h.Some? && !c.noUa && !c.unknownBot && !c.fakeBot ==> name == if c.known != "" then c.known else c.verified
  {
    TableIsRule(ctx, t.bySlug, base, ledger, size, c.known);
    TableIsRule(ctx, t.bySlug, base, ledger, size, c.verified);
  }

  // ----- the reply ------------------------------------------------------------------------------

  /** 429 blames the client and marks it; 503 does neither. */
  datatype Reply =
    | Allow
    | Observe(tier: nat)
    | TooMany(retry: nat)
    | Unavailable(retry: nat)

  /** What a refusal by budget `f` comes to: noted, blamed on the client, or on the site. */
  ghost predicate Refused(reply: Reply, f: nat, observed: bool) {
    if observed then reply == Observe(f) else if f == 0 then reply.TooMany? else reply.Unavailable?
  }

  function TiersOf(h: Holder, group: Option<Holder>, grand: Option<Holder>): (ts: seq<Tier>)
    ensures 1 <= |ts| <= 3 && ts[0] == Tier(h.slot, h.limit)
  {
    [Tier(h.slot, h.limit)]
      + (if group.Some? then [Tier(group.value.slot, group.value.limit)] else [])
      + (if grand.Some? then [Tier(grand.value.slot, grand.value.limit)] else [])
  }

  predicate Observes(tiers: seq<Tier>, f: nat) {
    f < |tiers| && tiers[f].limit.observe
  }

  /** The reply to a request, all tiers charged. */
  ghost predicate Settles(tiers: seq<Tier>, views: seq<View>, now: int, logOnly: bool,
                          reply: Reply, swaps: seq<Swap>)
    requires |tiers| == |views| > 0
  {
    && swaps == Swaps(tiers, views, |tiers|)
    && var first, retry := FirstTrip(tiers, views, |tiers|), Longest(tiers, views, now, |tiers|);
      match first
      case None => reply == Allow
      case Some(f) =>
        if logOnly || Observes(tiers, f) then reply == Observe(f)
        else if f == 0 then reply == TooMany(retry)
        else reply == Unavailable(retry)
  }

  /** A request is let through exactly when no tier refuses; the client is blamed only when its
      own tier refuses, and the site's capacity only when it does not but a wider one does. */
  lemma BlameIsFair(tiers: seq<Tier>, views: seq<View>, now: int, logOnly: bool, reply: Reply, swaps: seq<Swap>)
    requires |tiers| == |views| > 0 && Settles(tiers, views, now, logOnly, reply, swaps)
    ensures reply == Allow <==> forall i: nat :: !Trips(tiers, views, i)
    ensures reply.TooMany? ==> Trips(tiers, views, 0) && !logOnly && !Observes(tiers, 0) && reply.retry >= 1
    ensures reply.Unavailable? ==> !Trips(tiers, views, 0) && !logOnly && reply.retry >= 1
    ensures reply.Unavailable? ==> exists f: nat :: f > 0 && Trips(tiers, views, f) && !Observes(tiers, f)
  {
    FirstTripIs(tiers, views, |tiers|);
    LongestIs(tiers, views, now, |tiers|);
  }

  lemma {:induction false} SwapsBound(tiers: seq<Tier>, views: seq<View>, n: nat)
    requires n <= |tiers| == |views|
    ensures |Swaps(tiers, views, n)| <= n
  {
    if n > 0 { SwapsBound(tiers, views, n - 1); }
  }

  ghost predicate Denies(h: Option<Holder>, v: View) {
    h.Some? && Refuses(v, h.value.limit)
  }

  /** The holder's slot is charged what its own admission installs, and nothing else. */
  ghost predicate Charged(h: Option<Holder>, v: View, k: nat, swaps: seq<Swap>) {
    h.Some? ==> forall w {:trigger Swap(k, h.value.slot, w)} ::
      Swap(k, h.value.slot, w) in swaps <==> Installed(v, h.value.limit) == Some(w)
  }

  /** What a request comes to, budget by budget: its own, its botgroup's, the grand total.
      It is let through exactly when each there is admits it; else the first of them to refuse
      is reported, in the mode of its own rule; each is charged in any case. */
  ghost predicate Answered(h: Holder, group: Option<Holder>, grand: Option<Holder>, logOnly: bool, views: seq<View>,
                           reply: Reply, swaps: seq<Swap>)
    requires |views| == Budgets(group, grand)
  {
    var last := |views| - 1;
    var g := if group.Some? then 1 else 0;
    var own, ofGroup, ofAll := Denies(Some(h), views[0]), Denies(group, views[g]), Denies(grand, views[last]);
    && (reply == Allow <==> !own && !ofGroup && !ofAll)
    && (own ==> Refused(reply, 0, logOnly || h.limit.observe))
    && (!own && ofGroup ==> Refused(reply, 1, logOnly || group.value.limit.observe))
    && (!own && !ofGroup && ofAll ==> Refused(reply, last, logOnly || grand.value.limit.observe))
    && Charged(Some(h), views[0], 0, swaps) && Charged(group, views[g], 1, swaps) && Charged(grand, views[last], last, swaps)
    && |swaps| <= |views| && forall j :: 0 <= j < |swaps| ==> swaps[j].tier < |views|
  }

  function Budgets(group: Option<Holder>, grand: Option<Holder>): (n: nat)
    ensures 1 <= n <= 3
  {
    1 + (if group.Some? then 1 else 0) + (if grand.Some? then 1 else 0)
  }

  lemma {:induction false} ChargedAt(tiers: seq<Tier>, views: seq<View>, k: nat, h: Holder)
    requires k < |tiers| == |views| && tiers[k] == Tier(h.slot, h.limit)
    ensures Charged(Some(h), views[k], k, Swaps(tiers, views, |tiers|))
    ensures Trips(tiers, views, k) <==> Denies(Some(h), views[k])
  {
    ChargedOnce(tiers, views, |tiers|);
    var swaps, own := Swaps(tiers, views, |tiers|), Own(tiers, views, k);
    forall w ensures Swap(k, h.slot, w) in swaps <==> Installed(views[k], h.limit) == Some(w) {
      if Swap(k, h.slot, w) in swaps {
        var j :| 0 <= j < |swaps| && swaps[j] == Swap(k, h.slot, w);
        assert Own(tiers, views, swaps[j].tier) == Some(swaps[j]);
      }
    }
  }

  lemma {:induction false} SettledIsAnswered(h: Holder, group: Option<Holder>, grand: Option<Holder>, logOnly: bool,
                                             views: seq<View>, now: int, reply: Reply, swaps: seq<Swap>)
    requires |views| == Budgets(group, grand) == |TiersOf(h, group, grand)|
    requires Settles(TiersOf(h, group, grand), views, now, logOnly, reply, swaps)
    ensures Answered(h, group, grand, logOnly, views, reply, swaps)
  {
    var tiers, last := TiersOf(h, group, grand), |views| - 1;
    FirstTripIs(tiers, views, |tiers|);
    ChargedOnce(tiers, views, |tiers|);
    SwapsBound(tiers, views, |tiers|);
    ChargedAt(tiers, views, 0, h);
    if group.Some? { ChargedAt(tiers, views, 1, group.value); }
    if grand.Some? { ChargedAt(tiers, views, last, grand.value); }
  }

  /** `bs_bot_rate_check` once the holder is chosen. */
  method Check(h: Holder, group: Option<Holder>, grand: Option<Holder>, logOnly: bool,
               views: seq<View>, now: int) returns (reply: Reply, swaps: seq<Swap>)
    requires |views| == Budgets(group, grand) && AllLoaded(views)
    ensures Answered(h, group, grand, logOnly, views, reply, swaps)
    ensures |TiersOf(h, group, grand)| == |views| && Settles(TiersOf(h, group, grand), views, now, logOnly, reply, swaps)
  {
    var tiers := TiersOf(h, group, grand);
    forall r, s | Settles(tiers, views, now, logOnly, r, s) ensures Answered(h, group, grand, logOnly, views, r, s) {
      SettledIsAnswered(h, group, grand, logOnly, views, now, r, s);
    }
    var tripped, retry;
    tripped, retry, swaps := ChargeTiers(tiers, views, now);
    if tripped == None { return Allow, swaps; }
    var f := tripped.value;
    if logOnly || Observes(tiers, f) { return Observe(f), swaps; }
    if f == 0 { return TooMany(retry), swaps; }
    return Unavailable(retry), swaps;
  }
}
