/**
 The shared window slots of the captcha endpoint: a 44-bit minute and a 20-bit count in one
 64-bit word, updated by compare-and-swap from any number of workers. A rate slot admits up
 to a limit per window; a log slot counts the events it suppresses.
 */
module CvSlots {

  const SHIFT := 0x10_0000
  const MINUTES := 0x1000_0000_0000

  type Slot = s: int | 0 <= s < SHIFT * MINUTES

  /** `BS_CV_SLOT`: the minute shifted past 64 bits is lost, the count is masked to 20 bits. */
  function Pack(minute: nat, count: nat): Slot {
    (minute % MINUTES) * SHIFT + count % SHIFT
  }

  function Window(s: Slot): nat { s / SHIFT }

  function Count(s: Slot): nat { s % SHIFT }

  lemma PackParts(minute: nat, count: nat)
    ensures Count(Pack(minute, count)) == count % SHIFT
    ensures Window(Pack(minute, count)) == minute % MINUTES
  {}

  // ----- one worker -------------------------------------------------------

  datatype Kind = Rate(limit: nat) | Log

  datatype Outcome =
    | Accepted          // rate: counted, under the limit
    | Refused           // rate: window full
    | Emitted(prev: nat) // log: first event of a window, carrying the previous count
    | Suppressed        // log: counted, not logged
    | GaveUp            // contention: let through (rate) or logged (log) without counting

  datatype Worker =
    | Ready(kind: Kind, minute: nat, attempt: nat)
    | Loaded(kind: Kind, minute: nat, attempt: nat, observed: Slot)
    | Done(outcome: Outcome)

  const ATTEMPTS := 4

  /** What the worker would install over the value it observed. */
  predicate Rolls(observed: Slot, minute: nat) {
    Window(observed) != minute
  }

  function Candidate(observed: Slot, minute: nat): Slot {
    if Rolls(observed, minute) then Pack(minute, 1) else Pack(minute, Count(observed) + 1)
  }

  predicate Full(kind: Kind, observed: Slot, minute: nat) {
    kind.Rate? && !Rolls(observed, minute) && Count(observed) >= kind.limit
  }

  function Success(kind: Kind, observed: Slot, minute: nat): Outcome {
    if kind.Rate? then Accepted
    else if Rolls(observed, minute) then Emitted(Count(observed))
    else Suppressed
  }

  // ----- all workers ------------------------------------------------------

  /** The slot, its workers, and what really happened:
      `recorded` events installed by a successful swap, `sinceRoll` of them since the window
      last rolled, `reported` counts retired by rolls, `wraps` times the count ran over 20 bits
      (`wrapsSince` since the last roll). */
  datatype State = State(
    slot: Slot,
    workers: map<nat, Worker>,
    recorded: nat,
    sinceRoll: nat,
    reported: nat,
    wraps: nat,
    wrapsSince: nat)

  const START := State(0, map[], 0, 0, 0, 0, 0)

  ghost predicate Arrive(s: State, s': State, w: nat, kind: Kind, minute: nat) {
    w !in s.workers && s' == s.(workers := s.workers[w := Ready(kind, minute, 0)])
  }

  ghost predicate Read(s: State, s': State, w: nat) {
    && w in s.workers && s.workers[w].Ready?
    && var r := s.workers[w];
      s' == s.(workers := s.workers[w := Loaded(r.kind, r.minute, r.attempt, s.slot)])
  }

  /** Decide on the observed value; swap if the slot still holds it, else try again. */
  ghost predicate Decide(s: State, s': State, w: nat) {
    && w in s.workers && s.workers[w].Loaded?
    && var l := s.workers[w];
      if Full(l.kind, l.observed, l.minute) then
        s' == s.(workers := s.workers[w := Done(Refused)])
      else if s.slot == l.observed then
        s' == Installed(s, l).(workers := s.workers[w := Done(Success(l.kind, l.observed, l.minute))])
      else if l.attempt + 1 == ATTEMPTS then
        s' == s.(workers := s.workers[w := Done(GaveUp)])
      else
        s' == s.(workers := s.workers[w := Ready(l.kind, l.minute, l.attempt + 1)])
  }

  /** Bookkeeping of a successful swap. */
  function Installed(s: State, l: Worker): State
    requires l.Loaded?
  {
    var s' := s.(slot := Candidate(l.observed, l.minute), recorded := s.recorded + 1);
    if Rolls(l.observed, l.minute) then
      s'.(sinceRoll := 1, reported := s.reported + Count(l.observed), wrapsSince := 0)
    else
      var over := if Count(l.observed) + 1 == SHIFT then 1 else 0;
      s'.(sinceRoll := s.sinceRoll + 1, wraps := s.wraps + over, wrapsSince := s.wrapsSince + over)
  }

  ghost predicate Next(s: State, s': State) {
    || (exists w, kind, minute :: Arrive(s, s', w, kind, minute))
    || (exists w :: Read(s, s', w))
    || (exists w :: Decide(s, s', w))
  }

  ghost predicate Run(t: seq<State>) {
    && t != [] && t[0] == START
    && forall i {:trigger Next(t[i], t[i + 1])} :: 0 <= i < |t| - 1 ==> Next(t[i], t[i + 1])
  }

  /** Every request of the run is a rate request under a limit in 1..limit. */
  ghost predicate RatesUpTo(s: State, limit: nat) {
    forall w :: w in s.workers && !s.workers[w].Done? ==>
      s.workers[w].kind.Rate? && 1 <= s.workers[w].kind.limit <= limit
  }

  // ----- invariant ----------------------------------------------------------

  ghost predicate Inv(s: State) {
    && s.recorded == s.reported + Count(s.slot) + SHIFT * s.wraps
    && s.sinceRoll == Count(s.slot) + SHIFT * s.wrapsSince
    && s.wrapsSince <= s.wraps
  }

  lemma InstallKeeps(s: State, l: Worker)
    requires Inv(s) && l.Loaded? && s.slot == l.observed
    ensures Inv(Installed(s, l))
  {
    var c := Count(s.slot);
    PackParts(l.minute, 1);
    PackParts(l.minute, c + 1);
    if c + 1 < SHIFT { assert (c + 1) % SHIFT == c + 1; }
  }

  lemma NextKeeps(s: State, s': State)
    requires Inv(s) && Next(s, s')
    ensures Inv(s')
  {
    if w, kind, minute :| Arrive(s, s', w, kind, minute) {
    } else if w :| Read(s, s', w) {
    } else {
      var w :| Decide(s, s', w);
      if s.slot == s.workers[w].observed { InstallKeeps(s, s.workers[w]); }
    }
  }

  lemma {:induction false} Reachable(t: seq<State>, i: nat)
    requires Run(t) && i < |t|
    ensures Inv(t[i])
  {
    if i > 0 {
      var j := i - 1;
      Reachable(t, j);
      assert Next(t[j], t[j + 1]);
      NextKeeps(t[j], t[i]);
    }
  }

  // ----- theorems -----------------------------------------------------------

  /** What a worker's line in the log says was collapsed into it. */
  function Line(ws: map<nat, Worker>, w: nat): nat {
    if w in ws && ws[w].Done? && ws[w].outcome.Emitted? then ws[w].outcome.prev else 0
  }

  /** One for a worker whose event was recorded in the slot: logged or suppressed. */
  function Event(ws: map<nat, Worker>, w: nat): nat {
    if w in ws && ws[w].Done? && (ws[w].outcome.Emitted? || ws[w].outcome.Suppressed?) then 1 else 0
  }

  /** All the counts the log lines of workers below `n` carry. */
  function Lines(ws: map<nat, Worker>, n: nat): nat {
    if n == 0 then 0 else Lines(ws, n - 1) + Line(ws, n - 1)
  }

  /** How many events of workers below `n` were recorded. */
  function Events(ws: map<nat, Worker>, n: nat): nat {
    if n == 0 then 0 else Events(ws, n - 1) + Event(ws, n - 1)
  }

  lemma {:induction false} TallyUpdate(ws: map<nat, Worker>, w: nat, x: Worker, n: nat)
    ensures var ws' := ws[w := x];
      && Lines(ws', n) == Lines(ws, n) + (if w < n then Line(ws', w) - Line(ws, w) else 0)
      && Events(ws', n) == Events(ws, n) + (if w < n then Event(ws', w) - Event(ws, w) else 0)
  {
    if n > 0 { TallyUpdate(ws, w, x, n - 1); }
  }

  ghost predicate OnlyLogs(s: State) {
    forall w {:trigger s.workers[w]} :: w in s.workers && !s.workers[w].Done? ==> s.workers[w].kind.Log?
  }

  ghost predicate Below(s: State, n: nat) {
    forall w {:trigger w in s.workers} :: w in s.workers ==> w < n
  }

  /** The tallies are those of the workers' own outcomes. */
  ghost predicate Tallied(s: State, n: nat) {
    s.reported == Lines(s.workers, n) && s.recorded == Events(s.workers, n)
  }

  lemma TallyStep(s: State, s': State, n: nat)
    requires Next(s, s') && OnlyLogs(s) && Below(s', n) && Tallied(s, n)
    ensures Tallied(s', n)
  {
    if w, kind, minute :| Arrive(s, s', w, kind, minute) {
      TallyUpdate(s.workers, w, s'.workers[w], n);
    } else if w :| Read(s, s', w) {
      TallyUpdate(s.workers, w, s'.workers[w], n);
    } else {
      var w :| Decide(s, s', w);
      TallyUpdate(s.workers, w, s'.workers[w], n);
      assert s.workers[w].kind.Log?;
    }
  }

  lemma {:induction false} EmptyTally(n: nat)
    ensures Lines(map[], n) == 0 && Events(map[], n) == 0
  {
    if n > 0 { EmptyTally(n - 1); }
  }

  lemma {:induction false} StillBelow(t: seq<State>, k: nat, i: nat, n: nat)
    requires Run(t) && k <= i < |t| && Below(t[i], n)
    ensures Below(t[k], n)
  {
    if k < i {
      var j := i - 1;
      assert Next(t[j], t[j + 1]);
      assert forall w :: w in t[j].workers ==> w in t[i].workers;
      StillBelow(t, k, j, n);
    }
  }

  lemma {:induction false} AllTallied(t: seq<State>, i: nat, n: nat)
    requires Run(t) && i < |t| && Below(t[i], n) && forall k :: 0 <= k < |t| ==> OnlyLogs(t[k])
    ensures Tallied(t[i], n)
  {
    if i == 0 {
      EmptyTally(n);
    } else {
      var j := i - 1;
      StillBelow(t, j, i, n);
      AllTallied(t, j, n);
      assert Next(t[j], t[j + 1]);
      TallyStep(t[j], t[i], n);
    }
  }

  /** No count has run over 20 bits exactly when no window has ever taken 2^20 swaps. */
  lemma {:induction false} WrapsWhen(t: seq<State>, i: nat)
    requires Run(t) && i < |t|
    ensures t[i].wraps == 0 <==> forall k {:trigger t[k]} :: 0 <= k <= i ==> t[k].sinceRoll < SHIFT
  {
    Reachable(t, i);
    if i > 0 {
      var j := i - 1;
      WrapsWhen(t, j);
      Reachable(t, j);
      assert Next(t[j], t[j + 1]);
      if t[i].wraps == 0 {
        assert t[j].wraps == 0;
      } else if t[j].wraps == 0 {
        assert t[i].wrapsSince > 0;
      }
    }
  }

  /** Conservation in the log slot, in any run of logging workers: the counts carried by the
      lines logged, plus the count still in the slot, are the events recorded - exactly when
      no window has ever taken 2^20 of them. */
  lemma Conservation(t: seq<State>, i: nat, n: nat)
    requires Run(t) && i < |t| && Below(t[i], n) && forall k :: 0 <= k < |t| ==> OnlyLogs(t[k])
    ensures Lines(t[i].workers, n) + Count(t[i].slot) == Events(t[i].workers, n) <==>
      forall k {:trigger t[k]} :: 0 <= k <= i ==> t[k].sinceRoll < SHIFT
  {
    Reachable(t, i);
    AllTallied(t, i, n);
    WrapsWhen(t, i);
  }

  /** A worker that emits carries exactly the count the roll retires. */
  lemma EmitReports(s: State, s': State, w: nat)
    requires Decide(s, s', w) && s.workers[w].kind.Log? && s'.workers[w].Done?
    ensures match s'.workers[w].outcome
      case Emitted(prev) =>
        s'.reported == s.reported + prev && prev == Count(s.slot) && s'.recorded == s.recorded + 1 && Count(s'.slot) == 1
      case Suppressed =>
        s'.reported == s.reported && s'.recorded == s.recorded + 1 && Count(s'.slot) == (Count(s.slot) + 1) % SHIFT
      case GaveUp => s'.slot == s.slot && s'.recorded == s.recorded
      case _ => false
  {
    PackParts(s.workers[w].minute, 1);
    PackParts(s.workers[w].minute, Count(s.slot) + 1);
  }

  // ----- what one minute is ---------------------------------------------------

  /** One decision, told by the minutes: a rate worker is refused exactly when the word it
      loaded holds its own minute and a count of at least its limit; else a swap over an
      unchanged word counts one more in that minute or, in another minute, starts with one; a
      log worker is suppressed in the first case and logs the old count in the second. */
  lemma DecisionByMinute(s: State, s': State, w: nat)
    requires Decide(s, s', w)
    ensures var l, o := s.workers[w], s'.workers[w];
      var refused := l.kind.Rate? && Window(l.observed) == l.minute && Count(l.observed) >= l.kind.limit;
      && (o == Done(Refused) <==> refused)
      && (o == Done(GaveUp) <==> !refused && s.slot != l.observed && l.attempt + 1 == 4)
      && (Swapped(o) <==> !refused && s.slot == l.observed)
      && (Swapped(o) && l.kind.Rate? ==> o == Done(Accepted))
      && (Swapped(o) && l.kind.Log? ==> o == Done(if Window(s.slot) == l.minute then Suppressed else Emitted(Count(s.slot))))
      && s'.slot == (if !Swapped(o) then s.slot
                     else Pack(l.minute, if Window(s.slot) == l.minute then Count(s.slot) + 1 else 1))
  {}

  /** The worker's event went into the slot. */
  predicate Swapped(w: Worker) {
    w.Done? && (w.outcome.Accepted? || w.outcome.Emitted? || w.outcome.Suppressed?)
  }

  /** The step is a swap by a worker of the minute. */
  ghost predicate MadeIn(s: State, s': State, minute: nat) {
    exists w {:trigger s'.workers[w]} ::
      w in s.workers && w in s'.workers && s.workers[w].Loaded? && s.workers[w].minute == minute && Swapped(s'.workers[w])
  }

  /** How many swaps workers of `minute` have made since the last swap of any other minute. */
  ghost function Streak(t: seq<State>, i: nat, minute: nat): nat
    requires i < |t|
  {
    if i == 0 then 0
    else
      var s, s' := t[i - 1], t[i];
      if exists m {:trigger MadeIn(s, s', m)} :: MadeIn(s, s', m) && m != minute then 0
      else Streak(t, i - 1, minute) + if MadeIn(s, s', minute) then 1 else 0
  }

  /** Minutes fit their 44 bits. */
  ghost predicate MinutesFit(s: State) {
    forall w {:trigger s.workers[w]} :: w in s.workers && !s.workers[w].Done? ==> s.workers[w].minute < MINUTES
  }

  /** What a step does to the slot, told by the minute of the swap it is, if it is one. */
  lemma StepByMinute(s: State, s': State, m: nat)
    requires Next(s, s') && MinutesFit(s)
    ensures MadeIn(s, s', m) ==> Window(s'.slot) == m
    ensures MadeIn(s, s', m) ==> Count(s'.slot) == if Window(s.slot) == m then (Count(s.slot) + 1) % SHIFT else 1
    ensures MadeIn(s, s', m) ==> s'.sinceRoll == if Window(s.slot) == m then s.sinceRoll + 1 else 1
    ensures (forall n {:trigger MadeIn(s, s', n)} :: !MadeIn(s, s', n)) ==> s'.slot == s.slot && s'.sinceRoll == s.sinceRoll
  {
    if w, kind, minute :| Arrive(s, s', w, kind, minute) {
    } else if w :| Read(s, s', w) {
    } else {
      var w :| Decide(s, s', w);
      var minute := s.workers[w].minute;
      DecisionByMinute(s, s', w);
      PackParts(minute, 1);
      PackParts(minute, Count(s.slot) + 1);
      if Swapped(s'.workers[w]) { assert MadeIn(s, s', minute); }
    }
  }

  lemma OneMaker(s: State, s': State, m: nat, n: nat)
    requires Next(s, s') && MadeIn(s, s', m) && MadeIn(s, s', n)
    ensures m == n
  {
    if w, kind, minute :| Arrive(s, s', w, kind, minute) {
    } else if w :| Read(s, s', w) {
    } else {
      var w :| Decide(s, s', w);
    }
  }

  lemma {:induction false} StreakIs(t: seq<State>, i: nat)
    requires Run(t) && i < |t| && forall k :: 0 <= k < |t| ==> MinutesFit(t[k])
    ensures t[i].sinceRoll == Streak(t, i, Window(t[i].slot))
    ensures forall m {:trigger Streak(t, i, m)} :: m != Window(t[i].slot) ==> Streak(t, i, m) == 0
  {
    if i > 0 {
      var j := i - 1;
      var s, s' := t[j], t[i];
      StreakIs(t, j);
      assert Next(t[j], t[j + 1]);
      if n :| MadeIn(s, s', n) {
        StepByMinute(s, s', n);
        forall m | MadeIn(s, s', m) ensures m == n { OneMaker(s, s', m, n); }
      } else {
        StepByMinute(s, s', 0);
      }
    }
  }

  /** A slot counts one minute, the one it holds: its count is the number of swaps that
      workers of that minute have made since the last swap of another minute, to 20 bits. */
  lemma OneMinute(t: seq<State>, i: nat)
    requires Run(t) && i < |t| && forall k :: 0 <= k < |t| ==> MinutesFit(t[k])
    ensures Count(t[i].slot) == Streak(t, i, Window(t[i].slot)) % SHIFT
    ensures t[i].sinceRoll == Streak(t, i, Window(t[i].slot))
    ensures forall m {:trigger Streak(t, i, m)} :: m != Window(t[i].slot) ==> Streak(t, i, m) == 0
  {
    StreakIs(t, i);
    Reachable(t, i);
    Remainder(t[i].sinceRoll, Count(t[i].slot), t[i].wrapsSince);
  }

  lemma Remainder(n: nat, r: nat, q: nat)
    requires n == r + SHIFT * q && r < SHIFT
    ensures r == n % SHIFT
  {}

  lemma RateMaker(s: State, s': State, m: nat, limit: nat)
    requires Next(s, s') && RatesUpTo(s, limit) && MadeIn(s, s', m) && Window(s.slot) == m
    ensures Count(s.slot) < limit
  {
    if w, kind, minute :| Arrive(s, s', w, kind, minute) {
    } else if w :| Read(s, s', w) {
    } else {
      var w :| Decide(s, s', w);
      DecisionByMinute(s, s', w);
    }
  }

  /** A limit holds for each minute: under a fixed limit below 2^20, workers of one minute
      never make more swaps than the limit without one of another minute in between. */
  lemma {:induction false} MinuteLimit(t: seq<State>, i: nat, limit: nat, m: nat)
    requires Run(t) && i < |t| && 1 <= limit < SHIFT
    requires forall k :: 0 <= k < |t| ==> MinutesFit(t[k]) && RatesUpTo(t[k], limit)
    ensures Streak(t, i, m) <= limit
  {
    if i > 0 {
      var j := i - 1;
      var s, s' := t[j], t[i];
      MinuteLimit(t, j, limit, m);
      assert Next(t[j], t[j + 1]);
      if MadeIn(s, s', m) {
        OneMinute(t, j);
        if Window(s.slot) == m { RateMaker(s, s', m, limit); }
      }
    }
  }

  /** The word the worker last loaded was in the slot at some state so far. */
  ghost predicate WasLoaded(t: seq<State>, i: nat, w: Worker) {
    w.Loaded? ==> exists j {:trigger t[j]} :: 0 <= j <= i && j < |t| && t[j].slot == w.observed
  }

  lemma {:induction false} LoadedBefore(t: seq<State>, i: nat)
    requires Run(t) && i < |t|
    ensures forall w {:trigger t[i].workers[w]} :: w in t[i].workers ==> WasLoaded(t, i, t[i].workers[w])
  {
    if i > 0 {
      var k := i - 1;
      LoadedBefore(t, k);
      var s, s' := t[k], t[i];
      assert Next(t[k], t[k + 1]);
      forall w | w in s'.workers ensures WasLoaded(t, i, s'.workers[w]) {
        if w in s.workers && s'.workers[w] == s.workers[w] {
          assert WasLoaded(t, k, s.workers[w]);
        } else if s'.workers[w].Loaded? {
          assert s'.workers[w].observed == t[k].slot;
        }
      }
    }
  }

  /** The worker was refused on a word that was in the slot, held its minute and met its limit. */
  ghost predicate RefusedOn(t: seq<State>, k: nat, w: nat) {
    && k < |t| && w in t[k].workers && t[k].workers[w].Loaded? && WasLoaded(t, k, t[k].workers[w])
    && var l := t[k].workers[w];
      l.kind.Rate? && Window(l.observed) == l.minute && Count(l.observed) >= l.kind.limit
  }

  /** A worker is refused only on a slot that held its own minute with the limit used up. */
  lemma {:induction false} RefusedInMinute(t: seq<State>, i: nat, w: nat) returns (k: nat)
    requires Run(t) && i < |t| && w in t[i].workers && t[i].workers[w] == Done(Refused)
    ensures k < i && RefusedOn(t, k, w)
  {
    var j := i - 1;
    var s, s' := t[j], t[i];
    assert Next(t[j], t[j + 1]);
    if w in s.workers && s.workers[w] == Done(Refused) {
      k := RefusedInMinute(t, j, w);
    } else {
      k := j;
      LoadedBefore(t, j);
      var v :| Decide(s, s', v);
      DecisionByMinute(s, s', v);
      assert v == w;
    }
  }

  /** Under a fixed limit below 2^20 the count never passes it and is exactly the number of
      requests accepted by a swap since the window last rolled. */
  lemma {:induction false} RateBound(t: seq<State>, i: nat, limit: nat)
    requires Run(t) && i < |t| && limit < SHIFT
    requires forall k :: 0 <= k < |t| ==> RatesUpTo(t[k], limit)
    ensures Count(t[i].slot) <= limit
    ensures t[i].sinceRoll == Count(t[i].slot) && t[i].wraps == 0
  {
    if i > 0 {
      var j := i - 1;
      RateBound(t, j, limit);
      Reachable(t, j);
      Reachable(t, i);
      assert Next(t[j], t[j + 1]);
      RateStep(t[j], t[i], limit);
    }
  }

  lemma RateStep(s: State, s': State, limit: nat)
    requires Inv(s) && Next(s, s') && limit < SHIFT && RatesUpTo(s, limit)
    requires Count(s.slot) <= limit && s.wraps == 0
    ensures Count(s'.slot) <= limit && s'.wraps == 0
  {
    if w, kind, minute :| Arrive(s, s', w, kind, minute) {
    } else if w :| Read(s, s', w) {
    } else {
      var w :| Decide(s, s', w);
      var l := s.workers[w];
      PackParts(l.minute, 1);
      PackParts(l.minute, Count(l.observed) + 1);
    }
  }

  /** The limit must stay below 2^20: at 2^20 or more a full count wraps to zero and the
      window never fills. */
  lemma LimitNeedsRoom(limit: nat, minute: nat, s: Slot)
    requires minute < MINUTES && Window(s) == minute
    ensures (forall c: nat :: c < SHIFT ==> !Full(Rate(limit), Pack(minute, c), minute)) <==> limit >= SHIFT
    ensures Count(s) == SHIFT - 1 ==> Count(Candidate(s, minute)) == 0
  {
    forall c: nat | c < SHIFT ensures Full(Rate(limit), Pack(minute, c), minute) <==> c >= limit {
      PackParts(minute, c);
    }
    if limit < SHIFT {
      assert Full(Rate(limit), Pack(minute, limit), minute);
    }
    PackParts(minute, Count(s) + 1);
  }
}
