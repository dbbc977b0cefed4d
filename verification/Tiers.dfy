/**
 The tier decision of the request handler and the pass record it leaves in the next cookie:
 which challenge is served, and why a client is not challenged for ever.
 */
module Tiers {
  import opened Wrappers

  datatype Tier = Pass | NonInteractive | Interactive | Captcha

  function Rank(t: Tier): nat {
    match t case Pass => 0 case NonInteractive => 1 case Interactive => 2 case Captcha => 3
  }

  function Max(a: Tier, b: Tier): Tier {
    if Rank(b) > Rank(a) then b else a
  }

  /** The part of the cookie the decision reads: pass bits and the tier it was served under. */
  datatype Record = Record(nonInteractive: bool, interactive: bool, captcha: bool, auto: bool)

  /** A `BotShieldChallengeAtLeast` row: a named score that reaches `min` demands `tier`. */
  datatype Row = Row(name: string, min: int, tier: Tier)

  datatype Config = Config(rows: seq<Row>, captchaReady: bool, challengeEnabled: bool)

  // ----- the demand ---------------------------------------------------------

  /** `t` is the least tier that every matching row accepts. */
  ghost predicate IsFloor(rows: seq<Row>, score: string -> int, t: Tier) {
    && (forall i :: 0 <= i < |rows| && score(rows[i].name) >= rows[i].min ==> Rank(rows[i].tier) <= Rank(t))
    && (t == Pass || exists i :: 0 <= i < |rows| && score(rows[i].name) >= rows[i].min && rows[i].tier == t)
  }

  method ScoreFloor(rows: seq<Row>, score: string -> int) returns (t: Tier)
    ensures IsFloor(rows, score, t)
  {
    t := Pass;
    for i := 0 to |rows|
      invariant forall j :: 0 <= j < i && score(rows[j].name) >= rows[j].min ==> Rank(rows[j].tier) <= Rank(t)
      invariant t == Pass || exists j :: 0 <= j < i && score(rows[j].name) >= rows[j].min && rows[j].tier == t
    {
      if score(rows[i].name) >= rows[i].min && Rank(rows[i].tier) > Rank(t) {
        t := rows[i].tier;
      }
    }
  }

  /** The highest tier the record proves. */
  function Passed(r: Record): Tier {
    if r.captcha then Captcha
    else if r.interactive then Interactive
    else if r.nonInteractive then NonInteractive
    else Pass
  }

  function Proven(prior: Option<Record>): Tier {
    if prior.Some? then Passed(prior.value) else Pass
  }

  /** A captcha that cannot be asked is asked as the interactive proof of work. */
  function Clamp(t: Tier, captchaReady: bool): Tier {
    if t == Captcha && !captchaReady then Interactive else t
  }

  /** What a demand comes to: nothing if already proven at that level or challenges are off. */
  function Served(demand: Tier, cfg: Config, prior: Option<Record>): Tier {
    var asked := Clamp(demand, cfg.captchaReady);
    if !cfg.challengeEnabled || Rank(Proven(prior)) >= Rank(asked) then Pass else asked
  }

  /** `a` asks no more than `b`. */
  predicate AtMost(a: Tier, b: Tier) {
    match a
    case Pass => true
    case NonInteractive => b != Pass
    case Interactive => b == Interactive || b == Captcha
    case Captcha => b == Captcha
  }

  /** `d` is the larger of two tiers. */
  predicate Larger(a: Tier, b: Tier, d: Tier) {
    (d == a || d == b) && AtMost(a, d) && AtMost(b, d)
  }

  /** The record holds a bit for the tier or a higher one. */
  predicate Holds(prior: Option<Record>, t: Tier) {
    prior.Some? &&
    match t
    case Pass => true
    case NonInteractive => prior.value.nonInteractive || prior.value.interactive || prior.value.captcha
    case Interactive => prior.value.interactive || prior.value.captcha
    case Captcha => prior.value.captcha
  }

  /** What a demand `d` comes to. A captcha without a provider is asked as the interactive
      challenge, everything else as itself; it is not asked exactly when challenges are off, it
      asks nothing, or the record holds a bit for what would be asked, or higher. */
  predicate Settled(d: Tier, cfg: Config, prior: Option<Record>, tier: Tier) {
    var asked := if d == Captcha && !cfg.captchaReady then Interactive else d;
    && (tier == Pass || tier == asked)
    && (tier == Pass <==> !cfg.challengeEnabled || d == Pass || Holds(prior, asked))
  }

  lemma ServedSettles(a: Tier, b: Tier, d: Tier, cfg: Config, prior: Option<Record>)
    requires Larger(a, b, d)
    ensures Settled(d, cfg, prior, Served(Max(a, b), cfg, prior))
  {}

  /** The decision as the handler takes it, step by step. */
  method Decide(cfg: Config, score: string -> int, ruleFloor: Tier, prior: Option<Record>)
      returns (tier: Tier)
    ensures forall floor :: IsFloor(cfg.rows, score, floor) ==> tier == Served(Max(floor, ruleFloor), cfg, prior)
    ensures forall floor, d {:trigger Larger(floor, ruleFloor, d)} ::
      IsFloor(cfg.rows, score, floor) && Larger(floor, ruleFloor, d) ==> Settled(d, cfg, prior, tier)
  {
    tier := ScoreFloor(cfg.rows, score);
    forall floor | IsFloor(cfg.rows, score, floor) ensures floor == tier { FloorUnique(cfg.rows, score, floor, tier); }
    if Rank(ruleFloor) > Rank(tier) { tier := ruleFloor; }
    if tier == Captcha && !cfg.captchaReady { tier := Interactive; }
    if tier != Pass && prior.Some? {
      var passed := Pass;
      if prior.value.nonInteractive { passed := NonInteractive; }
      if prior.value.interactive { passed := Interactive; }
      if prior.value.captcha { passed := Captcha; }
      if Rank(passed) >= Rank(tier) { tier := Pass; }
    }
    if !cfg.challengeEnabled && tier != Pass { tier := Pass; }
    forall floor, d | IsFloor(cfg.rows, score, floor) && Larger(floor, ruleFloor, d) ensures Settled(d, cfg, prior, tier) {
      ServedSettles(floor, ruleFloor, d, cfg, prior);
    }
  }

  /** The score floor asks at least what each row whose score is reached asks, and no more
      than one of them. */
  lemma {:induction false} FloorIs(rows: seq<Row>, score: string -> int, t: Tier)
    requires IsFloor(rows, score, t)
    ensures forall i :: 0 <= i < |rows| && score(rows[i].name) >= rows[i].min ==> AtMost(rows[i].tier, t)
    ensures t != Pass ==> exists i :: 0 <= i < |rows| && score(rows[i].name) >= rows[i].min && rows[i].tier == t
  {}

  lemma {:induction false} FloorUnique(rows: seq<Row>, score: string -> int, t: Tier, u: Tier)
    requires IsFloor(rows, score, t) && IsFloor(rows, score, u)
    ensures t == u
  {}

  // ----- the next record ----------------------------------------------------

  /** The record sealed into the challenge envelope served for `tier`: what the prior cookie
      was served under is taken as solved; a first challenge is credited in advance. */
  method NextRecord(prior: Option<Record>, tier: Tier) returns (r: Record)
    ensures r == Envelope(prior, tier)
    ensures r.auto <==> tier == NonInteractive
    ensures prior.None? ==> !r.captcha && (r.nonInteractive <==> tier == NonInteractive) && (r.interactive <==> tier != NonInteractive)
    ensures prior.Some? ==> r.captcha == prior.value.captcha
    ensures prior.Some? ==> r.nonInteractive == (prior.value.nonInteractive || prior.value.auto)
    ensures prior.Some? ==> r.interactive == (prior.value.interactive || !prior.value.auto)
  {
    var issueAuto := tier == NonInteractive;
    r := Record(false, false, false, false);
    if prior.Some? {
      r := prior.value;
      if prior.value.auto {
        r := r.(nonInteractive := true);
      } else {
        r := r.(interactive := true);
      }
    } else {
      r := r.(nonInteractive := issueAuto, interactive := !issueAuto, captcha := false);
    }
    r := r.(auto := issueAuto);
  }

  function Envelope(prior: Option<Record>, tier: Tier): Record {
    var auto := tier == NonInteractive;
    match prior
    case None => Record(auto, !auto, false, auto)
    case Some(p) =>
      Record(p.nonInteractive || p.auto, p.interactive || !p.auto, p.captcha, auto)
  }

  /** `bs_captcha_carry_and_mint`: the carried record with the solved pass set. */
  function CaptchaMint(prior: Option<Record>, silent: bool, auto: bool): (r: Record)
    ensures Holds(Some(r), if silent then NonInteractive else Captcha) && r.auto == auto
    ensures forall t :: Holds(prior, t) ==> Holds(Some(r), t)
    ensures Holds(Some(r), Captcha) ==> !silent || Holds(prior, Captcha)
  {
    var base := if prior.Some? then prior.value else Record(false, false, false, false);
    if silent then base.(nonInteractive := true, auto := auto) else base.(captcha := true, auto := auto)
  }

  // ----- runs ---------------------------------------------------------------

  /** One request of a client: what the site demands, under which configuration. */
  datatype Request = Request(demand: Tier, captchaReady: bool, challengeEnabled: bool)

  function Cfg(q: Request): Config {
    Config([], q.captchaReady, q.challengeEnabled)
  }

  function Answer(q: Request, prior: Option<Record>): Tier {
    Served(q.demand, Cfg(q), prior)
  }

  /** The cookie after the request: unchanged when nothing is served, the captcha mint after
      a captcha, the envelope after any other challenge. */
  function After(q: Request, prior: Option<Record>): Option<Record> {
    match Answer(q, prior)
    case Pass => prior
    case Captcha => Some(CaptchaMint(prior, false, false))
    case t => Some(Envelope(prior, t))
  }

  /** Challenges served over a sequence of requests. */
  function Challenges(qs: seq<Request>, prior: Option<Record>): nat {
    if qs == [] then 0
    else (if Answer(qs[0], prior) == Pass then 0 else 1) + Challenges(qs[1..], After(qs[0], prior))
  }

  /** How many challenges the record can still meet. */
  function Remaining(prior: Option<Record>): nat {
    match prior
    case None => 4
    case Some(r) =>
      if r.captcha then 0
      else if r.interactive then 1
      else if !r.auto then 2
      else if r.nonInteractive then 3
      else 4
  }

  lemma EachChallengeCounts(q: Request, prior: Option<Record>)
    ensures Answer(q, prior) != Pass ==> Remaining(After(q, prior)) < Remaining(prior)
    ensures Answer(q, prior) == Pass ==> After(q, prior) == prior
  {}

  /** Whatever is demanded, in whatever order, a client that keeps its cookie meets at most
      four challenges. */
  lemma {:induction false} FewChallenges(qs: seq<Request>, prior: Option<Record>)
    ensures Challenges(qs, prior) <= Remaining(prior) <= 4
  {
    if qs != [] {
      EachChallengeCounts(qs[0], prior);
      FewChallenges(qs[1..], After(qs[0], prior));
    }
  }

  /** The bound is met from every starting record. */
  lemma BoundIsMet(prior: Option<Record>) returns (qs: seq<Request>)
    ensures Challenges(qs, prior) == Remaining(prior)
  {
    if Remaining(prior) == 0 {
      qs := [];
    } else {
      var tier := if Remaining(prior) == 1 then Captcha
                  else if prior == None || (Remaining(prior) == 4) then NonInteractive else Interactive;
      var q := Request(tier, true, true);
      var rest := BoundIsMetAfter(prior, q);
      qs := [q] + rest;
      assert qs[1..] == rest;
    }
  }

  lemma BoundIsMetAfter(prior: Option<Record>, q: Request) returns (qs: seq<Request>)
    requires Remaining(prior) > 0 && q.captchaReady && q.challengeEnabled
    requires q.demand == if Remaining(prior) == 1 then Captcha
                         else if Remaining(prior) == 4 then NonInteractive else Interactive
    ensures Challenges(qs, After(q, prior)) == Remaining(prior) - 1
    decreases Remaining(prior)
  {
    var next := After(q, prior);
    assert Remaining(next) == Remaining(prior) - 1;
    if Remaining(next) == 0 {
      qs := [];
    } else {
      var tier := if Remaining(next) == 1 then Captcha else if Remaining(next) == 4 then NonInteractive else Interactive;
      var q' := Request(tier, true, true);
      var rest := BoundIsMetAfter(next, q');
      qs := [q'] + rest;
      assert qs[1..] == rest;
    }
  }

  /** Meeting a proof-of-work challenge settles the same demand at once, except that a client
      last served the automatic tier is asked an interactive question twice: the first
      envelope credits the automatic solve, only the second the interactive one. */
  lemma SolveSettlesDemand(q: Request, prior: Option<Record>)
    requires Answer(q, prior) == NonInteractive || Answer(q, prior) == Interactive
    ensures Answer(q, After(q, prior)) == Pass <==>
      (prior.None? || !prior.value.auto || Answer(q, prior) == NonInteractive)
  {}

  // ----- why the clamp is there ----------------------------------------------

  /** The decision without the captcha clamp. */
  function UnclampedAnswer(q: Request, prior: Option<Record>): Tier {
    if !q.challengeEnabled || Rank(Proven(prior)) >= Rank(q.demand) then Pass else q.demand
  }

  /** What the client then holds: without a provider the captcha page falls back to the
      interactive envelope. */
  function UnclampedAfter(q: Request, prior: Option<Record>): Option<Record> {
    match UnclampedAnswer(q, prior)
    case Pass => prior
    case Captcha => Some(if q.captchaReady then CaptchaMint(prior, false, false) else Envelope(prior, Captcha))
    case t => Some(Envelope(prior, t))
  }

  function UnclampedChallenges(qs: seq<Request>, prior: Option<Record>): nat {
    if qs == [] then 0
    else (if UnclampedAnswer(qs[0], prior) == Pass then 0 else 1)
         + UnclampedChallenges(qs[1..], UnclampedAfter(qs[0], prior))
  }

  /** Without it a captcha floor on a scope with no provider challenges on every request. */
  lemma {:induction false} LoopsWithoutClamp(qs: seq<Request>, prior: Option<Record>)
    requires forall i :: 0 <= i < |qs| ==> qs[i] == Request(Captcha, false, true)
    requires Proven(prior) != Captcha
    ensures UnclampedChallenges(qs, prior) == |qs|
  {
    if qs != [] {
      assert qs[0] == Request(Captcha, false, true);
      LoopsWithoutClamp(qs[1..], UnclampedAfter(qs[0], prior));
    }
  }
}
