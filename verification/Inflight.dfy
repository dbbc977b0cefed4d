/**
 The global in-flight semaphore around captcha verification, and the guarded verify that
 acquires it, calls the provider and releases it, for any number of workers.
 */
module Inflight {

  const WORD := 0x1_0000_0000

  /** Program points of the guarded verify. `Verifying` records whether the acquire counted. */
  datatype Worker =
    | Acquiring(cap: int, attempt: nat)
    | Observed(cap: int, attempt: nat, cur: int)
    | Verifying(counted: bool)
    | Finished(acquired: bool, releases: nat)

  const ATTEMPTS := 8

  /** The shared word, the workers, the workers holding a counted slot, and how many
      releases had no counted acquire. */
  datatype State = State(counter: int, workers: map<nat, Worker>, holders: set<nat>, uncounted: nat)

  const START := State(0, map[], {}, 0)

  /** `(int)cur`: the unsigned word read as a signed one. */
  function AsInt(u: int): int {
    if u < WORD / 2 then u else u - WORD
  }

  ghost predicate Arrive(s: State, s': State, w: nat, cap: int) {
    w !in s.workers && s' == s.(workers := s.workers[w := Acquiring(cap, 0)])
  }

  /** A cap of zero or less lets the worker through without touching the word. */
  ghost predicate ReadWord(s: State, s': State, w: nat) {
    && w in s.workers && s.workers[w].Acquiring?
    && var a := s.workers[w];
      s' == s.(workers := s.workers[w :=
        if a.cap <= 0 then Verifying(false) else Observed(a.cap, a.attempt, s.counter)])
  }

  ghost predicate TryAcquire(s: State, s': State, w: nat) {
    && w in s.workers && s.workers[w].Observed?
    && var o := s.workers[w];
      if AsInt(o.cur) >= o.cap then
        s' == s.(workers := s.workers[w := Finished(false, 0)])
      else if s.counter == o.cur then
        s' == s.(counter := (o.cur + 1) % WORD, workers := s.workers[w := Verifying(true)], holders := s.holders + {w})
      else if o.attempt + 1 == ATTEMPTS then
        s' == s.(workers := s.workers[w := Finished(false, 0)])
      else
        s' == s.(workers := s.workers[w := Acquiring(o.cap, o.attempt + 1)])
  }

  /** The provider has answered; release on the way out. */
  ghost predicate Release(s: State, s': State, w: nat) {
    && w in s.workers && s.workers[w].Verifying?
    && s' == s.(counter := (s.counter - 1) % WORD,
                workers := s.workers[w := Finished(true, 1)],
                holders := s.holders - {w},
                uncounted := s.uncounted + if s.workers[w].counted then 0 else 1)
  }

  ghost predicate Next(s: State, s': State) {
    || (exists w, cap :: Arrive(s, s', w, cap))
    || (exists w :: ReadWord(s, s', w))
    || (exists w :: TryAcquire(s, s', w))
    || (exists w :: Release(s, s', w))
  }

  ghost predicate Run(t: seq<State>) {
    && t != [] && t[0] == START
    && forall i {:trigger Next(t[i], t[i + 1])} :: 0 <= i < |t| - 1 ==> Next(t[i], t[i + 1])
  }

  ghost predicate Inv(s: State) {
    && 0 <= s.counter < WORD
    && s.counter == (|s.holders| - s.uncounted) % WORD
    && (forall w :: w in s.holders <==> w in s.workers && s.workers[w] == Verifying(true))
    && (forall w :: w in s.workers && s.workers[w].Observed? ==> s.workers[w].cap >= 1 && 0 <= s.workers[w].cur < WORD)
    && (forall w :: w in s.workers && s.workers[w].Finished? ==>
          s.workers[w].releases == if s.workers[w].acquired then 1 else 0)
  }

  lemma AcquireKeeps(s: State, s': State, w: nat)
    requires Inv(s) && TryAcquire(s, s', w)
    ensures Inv(s')
  {
    assert w !in s.holders;
    if s'.holders != s.holders {
      assert |s'.holders| == |s.holders| + 1;
      assert s'.counter == (|s'.holders| - s'.uncounted) % WORD;
    }
  }

  lemma ReleaseKeeps(s: State, s': State, w: nat)
    requires Inv(s) && Release(s, s', w)
    ensures Inv(s')
  {
    if w in s.holders {
      assert |s'.holders| == |s.holders| - 1;
    } else {
      assert s'.holders == s.holders;
    }
    assert |s'.holders| - s'.uncounted == |s.holders| - s.uncounted - 1;
  }

  lemma NextKeeps(s: State, s': State)
    requires Inv(s) && Next(s, s')
    ensures Inv(s')
  {
    if w, cap :| Arrive(s, s', w, cap) {
    } else if w :| ReadWord(s, s', w) {
    } else if w :| TryAcquire(s, s', w) {
      AcquireKeeps(s, s', w);
    } else {
      var w :| Release(s, s', w);
      ReleaseKeeps(s, s', w);
    }
  }

  lemma {:induction false} Reachable(t: seq<State>, i: nat)
    requires Run(t) && i < |t|
    ensures Inv(t[i])
  {
    if i > 0 {
      var j := i - 1;
      Reachable(t, j);
      assert Next(t[j], t[j + 1]);
      NextKeeps(t[j], t[i]);
    }
  }

  // ----- theorems -----------------------------------------------------------

  /** Whatever the caps, the word is the number of counted holders less the uncounted
      releases, and every finished worker released exactly as often as it acquired. */
  lemma WordCountsHolders(t: seq<State>, i: nat)
    requires Run(t) && i < |t|
    ensures t[i].counter == (|t[i].holders| - t[i].uncounted) % WORD
    ensures forall w :: w in t[i].holders <==> w in t[i].workers && t[i].workers[w] == Verifying(true)
    ensures forall w :: w in t[i].workers && t[i].workers[w].Finished? ==>
      t[i].workers[w].releases == if t[i].workers[w].acquired then 1 else 0
  {
    Reachable(t, i);
  }

  ghost predicate CapsUpTo(s: State, cap: int) {
    forall w :: w in s.workers ==>
      match s.workers[w]
      case Acquiring(c, _) => 1 <= c <= cap
      case Observed(c, _, _) => 1 <= c <= cap
      case Verifying(counted) => counted
      case Finished(_, _) => true
  }

  /** With every cap between 1 and `cap`, no more than `cap` verifications are ever in
      flight, and the word is exactly their number. */
  lemma {:induction false} NeverAboveCap(t: seq<State>, i: nat, cap: int)
    requires Run(t) && i < |t| && 1 <= cap < WORD / 2
    requires forall k :: 0 <= k < |t| ==> CapsUpTo(t[k], cap)
    ensures t[i].uncounted == 0 && t[i].counter == |t[i].holders| <= cap
  {
    if i > 0 {
      var j := i - 1;
      NeverAboveCap(t, j, cap);
      Reachable(t, j);
      Reachable(t, i);
      assert Next(t[j], t[j + 1]);
      CapStep(t[j], t[i], cap);
    }
  }

  lemma CapStep(s: State, s': State, cap: int)
    requires Inv(s) && Inv(s') && Next(s, s') && 1 <= cap < WORD / 2 && CapsUpTo(s, cap)
    requires s.uncounted == 0 && s.counter == |s.holders| <= cap
    ensures s'.uncounted == 0 && s'.counter == |s'.holders| <= cap
  {
    if w, c :| Arrive(s, s', w, c) {
    } else if w :| ReadWord(s, s', w) {
    } else if w :| TryAcquire(s, s', w) {
      AcquireBound(s, s', w, cap);
    } else {
      var w :| Release(s, s', w);
      ReleaseBound(s, s', w, cap);
    }
  }

  lemma AcquireBound(s: State, s': State, w: nat, cap: int)
    requires Inv(s) && TryAcquire(s, s', w) && 1 <= cap < WORD / 2 && CapsUpTo(s, cap)
    requires s.uncounted == 0 && s.counter == |s.holders| <= cap
    ensures s'.uncounted == 0 && s'.counter == |s'.holders| <= cap
  {
    var o := s.workers[w];
    assert w !in s.holders && o.cap <= cap;
    if AsInt(o.cur) < o.cap && s.counter == o.cur {
      assert |s'.holders| == |s.holders| + 1;
      assert s'.counter == (s.counter + 1) % WORD == s.counter + 1;
    }
  }

  lemma ReleaseBound(s: State, s': State, w: nat, cap: int)
    requires Inv(s) && Release(s, s', w) && 1 <= cap < WORD / 2 && CapsUpTo(s, cap)
    requires s.uncounted == 0 && s.counter == |s.holders| <= cap
    ensures s'.uncounted == 0 && s'.counter == |s'.holders| <= cap
  {
    assert w in s.holders;
    assert |s'.holders| == |s.holders| - 1;
    assert s.counter >= 1 && s'.counter == s.counter - 1;
  }

  /** Where there is room and nobody interferes, the acquire succeeds; it fails only on a word
      at or above the cap, or when the last of its attempts loses the swap. */
  lemma AcquireDecides(s: State, s': State, w: nat)
    requires TryAcquire(s, s', w) && 1 <= s.workers[w].cap < WORD / 2 && 0 <= s.workers[w].cur < WORD / 2
    ensures var o, p := s.workers[w], s'.workers[w];
      && (p == Finished(false, 0) <==> o.cur >= o.cap || (s.counter != o.cur && o.attempt + 1 == 8))
      && (p == Verifying(true) <==> o.cur < o.cap && s.counter == o.cur)
      && s'.counter == (if p == Verifying(true) then s.counter + 1 else s.counter)
  {}

  /** The word the worker last read was the number of verifications in flight at some state so
      far. */
  ghost predicate WasRead(t: seq<State>, i: nat, w: Worker) {
    w.Observed? ==> exists j {:trigger t[j]} :: 0 <= j <= i && j < |t| && t[j].counter == w.cur
  }

  lemma {:induction false} ReadBefore(t: seq<State>, i: nat)
    requires Run(t) && i < |t|
    ensures forall w {:trigger t[i].workers[w]} :: w in t[i].workers ==> WasRead(t, i, t[i].workers[w])
  {
    if i > 0 {
      var k := i - 1;
      ReadBefore(t, k);
      var s, s' := t[k], t[i];
      assert Next(t[k], t[k + 1]);
      forall w | w in s'.workers ensures WasRead(t, i, s'.workers[w]) {
        if w in s.workers && s'.workers[w] == s.workers[w] {
          assert WasRead(t, k, s.workers[w]);
        } else if s'.workers[w].Observed? {
          assert s'.workers[w].cur == t[k].counter;
        }
      }
    }
  }

  /** The worker gave up at state `k`: it had read a full count, or lost its last swap. */
  ghost predicate TurnedAway(t: seq<State>, k: nat, w: nat) {
    && k < |t| && w in t[k].workers && t[k].workers[w].Observed?
    && var o := t[k].workers[w];
      || (exists j {:trigger t[j]} :: 0 <= j <= k && |t[j].holders| >= o.cap)
      || (o.attempt + 1 == 8 && t[k].counter != o.cur)
  }

  /** A worker is turned away only if its cap was in use at some state, or it lost the last of
      its eight attempts to another. */
  lemma {:induction false} RefusedWhenFull(t: seq<State>, i: nat, cap: int, w: nat) returns (k: nat)
    requires Run(t) && i < |t| && 1 <= cap < WORD / 2 && forall k :: 0 <= k < |t| ==> CapsUpTo(t[k], cap)
    requires w in t[i].workers && t[i].workers[w] == Finished(false, 0)
    ensures k < i && TurnedAway(t, k, w)
  {
    var j := i - 1;
    var s, s' := t[j], t[i];
    assert Next(t[j], t[j + 1]);
    if w in s.workers && s.workers[w] == Finished(false, 0) {
      k := RefusedWhenFull(t, j, cap, w);
    } else {
      k := j;
      ReadBefore(t, j);
      var v :| TryAcquire(s, s', v);
      assert v == w && WasRead(t, j, s.workers[w]);
      var r :| 0 <= r <= j && t[r].counter == s.workers[w].cur;
      NeverAboveCap(t, r, cap);
      AcquireDecides(s, s', w);
    }
  }

  /** The cap must be positive: one worker with a cap of zero leaves the word at 2^32 - 1,
      after which it reads as a negative count. */
  lemma ZeroCapBreaksTheWord() returns (t: seq<State>)
    ensures Run(t) && t[|t| - 1].holders == {} && AsInt(t[|t| - 1].counter) == -1
  {
    var s1 := START.(workers := map[7 := Acquiring(0, 0)]);
    var s2 := s1.(workers := map[7 := Verifying(false)]);
    var s3 := s2.(counter := WORD - 1, workers := map[7 := Finished(true, 1)], uncounted := 1);
    assert Arrive(START, s1, 7, 0);
    assert ReadWord(s1, s2, 7);
    assert s2.holders - {7} == {};
    assert Release(s2, s3, 7);
    t := [START, s1, s2, s3];
  }
}
