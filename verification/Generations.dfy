/**
 Generation swap with one deferred free: the publish/drain protocol shared by the bot
 directory, the crawler ranges and the browser templates.

 One publisher (the watchdog tick) and any number of readers interleave. A publish is four
 separate steps; a reader loads the active pointer once and keeps using what it loaded.
 */
module Generations {
  import opened Wrappers
  import opened Collections

  type Gen = nat
  type Reader = nat

  /** Where the publisher stands inside `publish`. */
  datatype Phase =
    | Idle
    | Taken(newGen: Option<Gen>, drain: Option<Gen>)   // pending taken, slot cleared
    | Swapped(prior: Option<Gen>, drain: Option<Gen>) // active exchanged
    | Parked(drain: Option<Gen>)                      // prior parked in the slot

  /** What a reader holds, and how many exchanges had happened when it loaded. */
  datatype Lease = Lease(gen: Gen, at: nat)

  datatype State = State(
    active: Option<Gen>,
    pending: Option<Gen>,
    phase: Phase,
    published: set<Gen>,
    destroyed: seq<Gen>,
    built: nat,
    freed: nat,
    nullPublishes: nat,
    swaps: nat,
    readers: map<Reader, Lease>)

  const START := State(None, None, Idle, {}, [], 0, 0, 0, 0, map[])

  // ----- steps ----------------------------------------------------------

  /** `to_destroy = pending; pending = NULL;` and the built counter, for a state never
      published before (or NULL, the revert to the baseline). */
  ghost predicate Begin(s: State, s': State, newGen: Option<Gen>) {
    && s.phase == Idle
    && (newGen.Some? ==> newGen.value !in s.published)
    && s' == s.(phase := Taken(newGen, s.pending), pending := None, built := s.built + 1,
                published := s.published + Opt(newGen),
                nullPublishes := s.nullPublishes + if newGen.None? then 1 else 0)
  }

  ghost predicate Swap(s: State, s': State) {
    && s.phase.Taken?
    && s' == s.(active := s.phase.newGen, phase := Swapped(s.active, s.phase.drain), swaps := s.swaps + 1)
  }

  ghost predicate Park(s: State, s': State) {
    && s.phase.Swapped?
    && s' == s.(pending := s.phase.prior, phase := Parked(s.phase.drain))
  }

  ghost predicate Free(s: State, s': State) {
    && s.phase.Parked?
    && s' == match s.phase.drain
             case None => s.(phase := Idle)
             case Some(g) => s.(phase := Idle, destroyed := s.destroyed + [g], freed := s.freed + 1)
  }

  ghost predicate Load(s: State, s': State, r: Reader) {
    && r !in s.readers && s.active.Some?
    && s' == s.(readers := s.readers[r := Lease(s.active.value, s.swaps)])
  }

  ghost predicate Finish(s: State, s': State, r: Reader) {
    r in s.readers && s' == s.(readers := s.readers - {r})
  }

  ghost predicate Next(s: State, s': State) {
    || (exists newGen :: Begin(s, s', newGen))
    || Swap(s, s') || Park(s, s') || Free(s, s')
    || (exists r :: Load(s, s', r)) || (exists r :: Finish(s, s', r))
  }

  ghost predicate Run(t: seq<State>) {
    && t != [] && t[0] == START
    && forall i {:trigger Next(t[i], t[i + 1])} :: 0 <= i < |t| - 1 ==> Next(t[i], t[i + 1])
  }

  // ----- what holds in every reachable state ------------------------------

  function Opt(o: Option<Gen>): set<Gen> {
    match o case None => {} case Some(g) => {g}
  }

  function Size(o: Option<Gen>): nat {
    if o.Some? then 1 else 0
  }

  function Prior(p: Phase): Option<Gen> {
    if p.Swapped? then p.prior else None
  }

  function Drain(p: Phase): Option<Gen> {
    if p.Idle? then None else p.drain
  }

  function Fresh(p: Phase): Option<Gen> {
    if p.Taken? then p.newGen else None
  }

  function Live(s: State): set<Gen> {
    Opt(s.active) + Opt(s.pending) + Opt(Prior(s.phase)) + Opt(Drain(s.phase)) + Opt(Fresh(s.phase))
  }

  predicate IsLive(s: State, g: Gen) {
    s.active == Some(g) || s.pending == Some(g) || Prior(s.phase) == Some(g) || Drain(s.phase) == Some(g)
    || Fresh(s.phase) == Some(g)
  }

  predicate Apart(a: Option<Gen>, b: Option<Gen>) {
    a.Some? ==> a != b
  }

  /** No generation is in two places. */
  predicate AllApart(s: State) {
    var prior, drain, unseen := Prior(s.phase), Drain(s.phase), Fresh(s.phase);
    && Apart(s.active, s.pending) && Apart(s.active, prior) && Apart(s.active, drain) && Apart(s.active, unseen)
    && Apart(s.pending, prior) && Apart(s.pending, drain) && Apart(s.pending, unseen)
    && Apart(prior, drain) && Apart(prior, unseen) && Apart(drain, unseen)
  }

  function LiveCount(s: State): nat {
    Size(s.active) + Size(s.pending) + Size(Prior(s.phase)) + Size(Drain(s.phase)) + Size(Fresh(s.phase))
  }

  /** How stale a lease on `g` must be, by where `g` now is. */
  ghost predicate LeaseOk(s: State, l: Lease) {
    && l.at <= s.swaps && l.gen in s.published
    && (l.gen in s.destroyed ==> l.at + 2 <= s.swaps)
    && (Drain(s.phase) == Some(l.gen) ==> l.at + (if s.phase.Taken? then 1 else 2) <= s.swaps)
    && (s.pending == Some(l.gen) || Prior(s.phase) == Some(l.gen) ==> l.at + 1 <= s.swaps)
    && Fresh(s.phase) != Some(l.gen)
  }

  /** Each generation is in one place, and the counters agree with the places. */
  ghost predicate Placed(s: State) {
    && AllApart(s)
    && (forall g {:trigger IsLive(s, g)} {:trigger g in s.destroyed} {:trigger g in s.published} ::
          (g in s.published <==> IsLive(s, g) || g in s.destroyed) && (g in s.destroyed ==> !IsLive(s, g)))
    && Distinct(s.destroyed) && s.freed == |s.destroyed|
    && (s.phase.Taken? || s.phase.Swapped? ==> s.pending == None)
    && s.built == s.freed + LiveCount(s) + s.nullPublishes
  }

  ghost predicate Leased(s: State) {
    forall r {:trigger LeaseOk(s, s.readers[r])} :: r in s.readers ==> LeaseOk(s, s.readers[r])
  }

  ghost predicate Inv(s: State) {
    Placed(s) && Leased(s)
  }

  /** Freeing removes exactly the drained generation from the live ones. */
  lemma FreeKeeps(s: State, s': State)
    requires Placed(s) && Free(s, s')
    ensures Placed(s')
  {
    var d := s.phase.drain;
    forall g: Gen ensures IsLive(s, g) <==> IsLive(s', g) || d == Some(g) {}
    if d.Some? { assert IsLive(s, d.value) && !IsLive(s', d.value); }
  }

  /** A publisher step leaves every lease as stale as it has to be. */
  lemma PublisherKeepsLeases(s: State, s': State)
    requires Inv(s) && ((exists newGen :: Begin(s, s', newGen)) || Swap(s, s') || Park(s, s') || Free(s, s'))
    ensures Leased(s')
  {
    forall r | r in s'.readers ensures LeaseOk(s', s'.readers[r]) {
      assert LeaseOk(s, s.readers[r]);
    }
  }

  lemma LiveSize(s: State)
    requires AllApart(s)
    ensures |Live(s)| == LiveCount(s)
  {
    var parked := Opt(s.active) + Opt(s.pending);
    InPublish(parked, Prior(s.phase), Drain(s.phase), Fresh(s.phase));
  }

  lemma InPublish(parked: set<Gen>, prior: Option<Gen>, drain: Option<Gen>, unseen: Option<Gen>)
    requires Apart(prior, drain) && Apart(prior, unseen) && Apart(drain, unseen)
    requires parked !! Opt(prior) && parked !! Opt(drain) && parked !! Opt(unseen)
    ensures |parked + Opt(prior) + Opt(drain) + Opt(unseen)| == |parked| + Size(prior) + Size(drain) + Size(unseen)
  {
  }

  lemma ReaderKeeps(s: State, s': State, r: Reader)
    requires Inv(s) && (Load(s, s', r) || Finish(s, s', r))
    ensures Inv(s')
  {
    forall g: Gen ensures IsLive(s', g) <==> IsLive(s, g) {}
    forall q | q in s'.readers ensures LeaseOk(s', s'.readers[q]) {
      if q in s.readers && s'.readers[q] == s.readers[q] {
        assert LeaseOk(s, s.readers[q]);
      } else {
        assert IsLive(s, s.active.value);
      }
    }
  }

  lemma NextKeeps(s: State, s': State)
    requires Inv(s) && Next(s, s')
    ensures Inv(s')
  {
    if newGen :| Begin(s, s', newGen) { PublisherKeepsLeases(s, s'); }
    else if Swap(s, s') { PublisherKeepsLeases(s, s'); }
    else if Park(s, s') { PublisherKeepsLeases(s, s'); }
    else if Free(s, s') { FreeKeeps(s, s'); PublisherKeepsLeases(s, s'); }
    else if r :| Load(s, s', r) { ReaderKeeps(s, s', r); }
    else { var r :| Finish(s, s', r); ReaderKeeps(s, s', r); }
  }

  lemma {:induction false} Reachable(t: seq<State>, i: nat)
    requires Run(t) && i < |t|
    ensures Inv(t[i])
  {
    if i > 0 {
      var j := i - 1;
      Reachable(t, j);
      assert Next(t[j], t[j + 1]);
      NextKeeps(t[j], t[i]);
    }
  }

  // ----- theorems -------------------------------------------------------

  /** A generation a reader still holds has been destroyed only if at least two exchanges
      happened since the reader loaded it. */
  lemma ReaderSafe(t: seq<State>, i: nat, r: Reader)
    requires Run(t) && i < |t| && r in t[i].readers
    requires t[i].swaps <= t[i].readers[r].at + 1
    ensures t[i].readers[r].gen !in t[i].destroyed
  {
    Reachable(t, i);
    assert LeaseOk(t[i], t[i].readers[r]);
  }

  /** No generation is destroyed twice, the active one never is. */
  lemma DestroyedOnce(t: seq<State>, i: nat)
    requires Run(t) && i < |t|
    ensures Distinct(t[i].destroyed) && t[i].freed == |t[i].destroyed|
    ensures t[i].active.Some? ==> t[i].active.value !in t[i].destroyed
    ensures t[i].pending.Some? ==> t[i].pending.value !in t[i].destroyed
  {
    Reachable(t, i);
    var s := t[i];
    assert s.active.Some? ==> IsLive(s, s.active.value);
    assert s.pending.Some? ==> IsLive(s, s.pending.value);
  }

  /** Between publishes at most two generations are live, three while one is running; the
      built counter exceeds freed plus live by exactly the number of NULL publishes. */
  lemma Accounting(t: seq<State>, i: nat)
    requires Run(t) && i < |t|
    ensures forall g :: g in t[i].published <==> g in Live(t[i]) || g in t[i].destroyed
    ensures |Live(t[i])| <= if t[i].phase == Idle then 2 else 3
    ensures t[i].built == t[i].freed + |Live(t[i])| + t[i].nullPublishes
    ensures t[i].built == t[i].freed + |Live(t[i])| <==> t[i].nullPublishes == 0
  {
    Reachable(t, i);
    LiveSize(t[i]);
    forall g: Gen ensures g in Live(t[i]) <==> IsLive(t[i], g) {}
  }

  /** No publish so far has passed NULL. */
  ghost predicate OnlyStates(t: seq<State>, i: nat) {
    forall k {:trigger t[k]} :: 0 <= k <= i && k < |t| && t[k].phase.Taken? ==> t[k].phase.newGen.Some?
  }

  /** Every caller tests what it has built before it publishes it; in such runs everything
      built is either freed or live. */
  lemma BuiltIsFreedOrLive(t: seq<State>, i: nat)
    requires Run(t) && i < |t| && OnlyStates(t, i)
    ensures t[i].built == t[i].freed + |Live(t[i])|
  {
    NoNulls(t, i);
    Accounting(t, i);
  }

  lemma {:induction false} NoNulls(t: seq<State>, i: nat)
    requires Run(t) && i < |t| && OnlyStates(t, i)
    ensures t[i].nullPublishes == 0
  {
    if i > 0 {
      var j := i - 1;
      NoNulls(t, j);
      assert Next(t[j], t[j + 1]);
    }
  }

  /** Appends one whole publish to a run that stands between publishes. */
  lemma ExtendPublish(t: seq<State>, g: Gen) returns (u: seq<State>)
    requires Run(t) && t[|t| - 1].phase == Idle && g !in t[|t| - 1].published
    ensures Run(u) && var s, s' := t[|t| - 1], u[|u| - 1];
      && s'.phase == Idle && s'.active == Some(g) && s'.pending == s.active && s'.published == s.published + {g}
      && s'.readers == s.readers && s'.swaps == s.swaps + 1
      && s'.destroyed == s.destroyed + if s.pending.Some? then [s.pending.value] else []
  {
    var s := t[|t| - 1];
    var s1 := s.(phase := Taken(Some(g), s.pending), pending := None, built := s.built + 1, published := s.published + {g});
    assert Begin(s, s1, Some(g));
    var s2 := s1.(active := Some(g), phase := Swapped(s1.active, s.pending), swaps := s1.swaps + 1);
    var s3 := s2.(pending := s.active, phase := Parked(s.pending));
    var s4 := if s.pending.Some?
              then s3.(phase := Idle, destroyed := s3.destroyed + [s.pending.value], freed := s3.freed + 1)
              else s3.(phase := Idle);
    u := t + [s1] + [s2] + [s3] + [s4];
  }

  /** The bound is exact: a reader that outlives the second publish after its load can hold
      a destroyed generation. */
  lemma LateReaderUnsafe() returns (t: seq<State>)
    ensures Run(t) && var s := t[|t| - 1];
      1 in s.readers && s.readers[1].gen in s.destroyed && s.swaps == s.readers[1].at + 2
  {
    t := [START];
    t := ExtendPublish(t, 10);
    var s := t[|t| - 1];
    var loaded := s.(readers := s.readers[1 := Lease(10, s.swaps)]);
    assert Load(s, loaded, 1);
    t := t + [loaded];
    t := ExtendPublish(t, 11);
    t := ExtendPublish(t, 12);
  }

  /** A publish of NULL, which the functions accept, would count as built what was not. */
  lemma NullIsCounted() returns (t: seq<State>)
    ensures Run(t) && var s := t[|t| - 1]; s.phase == Idle && s.built == 1 && s.freed == 0 && Live(s) == {}
  {
    var s1 := START.(phase := Taken(None, None), built := 1, nullPublishes := 1);
    var s2 := s1.(phase := Swapped(None, None), swaps := 1);
    var s3 := s2.(phase := Parked(None));
    var s4 := s3.(phase := Idle);
    assert Begin(START, s1, None);
    t := [START] + [s1] + [s2] + [s3] + [s4];
  }

  // ----- the code --------------------------------------------------------

  /** The module globals and `publish` as it is written. */
  class Registry {
    var active: Option<Gen>
    var pending: Option<Gen>
    var destroyed: seq<Gen>
    var built: nat
    var freed: nat
    ghost var published: set<Gen>
    ghost var nullPublishes: nat
    ghost var swaps: nat
    ghost var readers: map<Reader, Lease>

    ghost function View(): State
      reads this
    {
      State(active, pending, Idle, published, destroyed, built, freed, nullPublishes, swaps, readers)
    }

    constructor ()
      ensures View() == START
    {
      active, pending, destroyed, built, freed := None, None, [], 0, 0;
      published, nullPublishes, swaps, readers := {}, 0, 0, map[];
    }

    /** Uninterrupted, `publish` is the four protocol steps in order. */
    method Publish(newGen: Option<Gen>) returns (ghost s1: State, ghost s2: State, ghost s3: State)
      requires newGen.Some? ==> newGen.value !in published
      modifies this
      ensures Begin(old(View()), s1, newGen) && Swap(s1, s2) && Park(s2, s3) && Free(s3, View())
      ensures active == newGen && pending == old(active)
      ensures destroyed == old(destroyed) + if old(pending).Some? then [old(pending).value] else []
    {
      var toDestroy := pending;
      pending := None;
      built := built + 1;
      published := published + Opt(newGen);
      nullPublishes := nullPublishes + if newGen.None? then 1 else 0;
      s1 := View().(phase := Taken(newGen, toDestroy));
      var prior := active;
      active := newGen;
      swaps := swaps + 1;
      s2 := View().(phase := Swapped(prior, toDestroy));
      pending := prior;
      s3 := View().(phase := Parked(toDestroy));
      if toDestroy.Some? {
        destroyed := destroyed + [toDestroy.value];
        freed := freed + 1;
      }
    }
  }
}
