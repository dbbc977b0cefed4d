/**
 Session cookies on the wire: issued under a primary key, verified under two, carried forward
 from cookie to cookie, and kept readable across key rotation. AES-GCM is an ideal
 authenticated cipher: the vault holds every envelope ever sealed, and an envelope opens only
 there and only under the key it was sealed with. Base64 is an exact codec.
 */
module Session {
  import opened Text
  import opened Wrappers
  import opened Pow
  import opened Codec
  import opened AlgorithmTable
  import opened Cookie

  type Key = nat
  type Envelope = nat

  datatype Sealed = Sealed(key: Key, text: string)

  type Vault = map<Envelope, Sealed>

  datatype Keys = Keys(primary: Key, secondary: Option<Key>)

  datatype Config = Config(secret: bool, keys: Keys)

  /** The primitives a verification relies on. */
  datatype Crypto = Crypto(encode: Envelope -> string, decode: string -> Option<Envelope>, sha256: seq<byte> -> Digest)

  const DOT := '.'
  const MAX_COOKIE := 256 * 1024

  ghost predicate DotFree(s: string) {
    forall i :: 0 <= i < |s| ==> s[i] != DOT
  }

  ghost predicate Exact(cr: Crypto) {
    forall e: Envelope {:trigger cr.encode(e)} :: cr.decode(cr.encode(e)) == Some(e) && DotFree(cr.encode(e))
  }

  // ----- opening ------------------------------------------------------------------------

  /** Decryption under one key. */
  function Unseal(vault: Vault, key: Key, e: Envelope): Option<string> {
    if e in vault && vault[e].key == key then Some(vault[e].text) else None
  }

  /** Primary first, then the secondary if there is one. */
  method OpenEnvelope(vault: Vault, keys: Keys, e: Envelope) returns (text: Option<string>)
    ensures text == Opened(vault, keys, e)
  {
    text := Unseal(vault, keys.primary, e);
    if text == None && keys.secondary.Some? {
      text := Unseal(vault, keys.secondary.value, e);
    }
  }

  ghost predicate Held(keys: Keys, k: Key) {
    keys.primary == k || keys.secondary == Some(k)
  }

  /** An envelope opens when it was sealed under either key. */
  ghost function Opened(vault: Vault, keys: Keys, e: Envelope): Option<string> {
    if e in vault && Held(keys, vault[e].key) then Some(vault[e].text) else None
  }

  /** Index of the last dot, or -1. */
  function LastDot(s: string, n: nat): (i: int)
    requires n <= |s|
    ensures -1 <= i < n && (i >= 0 ==> s[i] == DOT) && forall k :: i < k < n ==> s[k] != DOT
  {
    if n == 0 then -1 else if s[n - 1] == DOT then n - 1 else LastDot(s, n - 1)
  }

  /** A C string ends at its first NUL. */
  function CString(s: string): string {
    s[..IndexOf(s, NUL, 0)]
  }

  // ----- verification ---------------------------------------------------------------------

  datatype CookieError =
    | NoSecret | TooLong | NoSeparator | NotAnEnvelope | SignatureMismatch
    | Malformed(why: ParseError) | Expired | BadCounter(verdict: Verdict)

  function BytesOf(s: string): (b: seq<byte>)
    ensures |b| == |s| && forall i :: 0 <= i < |s| && s[i] as int < 256 ==> b[i] == s[i] as int
  {
    seq(|s|, i requires 0 <= i < |s| => s[i] as int % 256)
  }

  /** The counter proves the work a challenge asks for; outside proof of work, any will do. */
  ghost predicate CounterOk(reg: seq<Algorithm>, ch: Challenge, counter: string, sha256: seq<byte> -> Digest) {
    if Registered(reg, ch.alg, Algorithm(ch.alg, Zeros)) then
      0 < |counter| <= COUNTER_MAX && 0 <= ch.difficulty <= 2 * DIGEST_LEN &&
      Passes(sha256(ch.salt + ch.nonce + BytesOf(counter)), ch.difficulty)
    else counter != []
  }

  method CheckCounter(reg: seq<Algorithm>, ch: Challenge, counter: string, sha256: seq<byte> -> Digest) returns (v: Verdict)
    requires Sound(reg) && WellFormed(reg, ch)
    ensures v == Accepted <==> CounterOk(reg, ch, counter, sha256)
    ensures v == EmptyCounter <==> counter == []
    ensures v == CounterTooLong <==> Registered(reg, ch.alg, Algorithm(ch.alg, Zeros)) && |counter| > COUNTER_MAX
    ensures v == InsufficientZeros ==> Registered(reg, ch.alg, Algorithm(ch.alg, Zeros))
  {
    var a := FindAlgorithm(reg, ch.alg);
    if a.value.kind == Zeros {
      v := VerifySha256Zeros(ch.salt, ch.nonce, ch.difficulty, BytesOf(counter), sha256);
    } else {
      forall b | Registered(reg, ch.alg, b) ensures b == a.value { RegisteredUnique(reg, ch.alg, a.value, b); }
      v := if counter == [] then EmptyCounter else Accepted;
    }
  }

  /** The wire value splits at its last dot into an envelope and a counter. */
  ghost predicate Carries(cr: Crypto, value: string, e: Envelope) {
    |value| <= MAX_COOKIE && LastDot(value, |value|) >= 0 && cr.decode(value[..LastDot(value, |value|)]) == Some(e)
  }

  ghost function CounterOf(value: string): string {
    value[LastDot(value, |value|) + 1..]
  }

  /** The envelope in the cookie authenticates, and its text is that of the challenge. */
  ghost predicate Authentic(reg: seq<Algorithm>, cfg: Config, cr: Crypto, vault: Vault, value: string, ch: Challenge) {
    && cfg.secret
    && exists e :: Carries(cr, value, e) && Opened(vault, cfg.keys, e).Some?
         && ParsesTo(reg, CString(Opened(vault, cfg.keys, e).value), ch)
  }

  /** Decryption output in a buffer with a terminator, split and parsed there. */
  method ReadText(reg: seq<Algorithm>, text: string) returns (r: Result<Challenge, ParseError>)
    requires Sound(reg)
    ensures match r
      case Ok(ch) => ParsesTo(reg, CString(text), ch)
      case Err(e) => FirstWrong(reg, Split(CString(text), FIELDS), e) && forall ch :: !ParsesTo(reg, CString(text), ch)
  {
    var pt := new char[|text| + 1](i requires 0 <= i <= |text| => if i < |text| then text[i] else NUL);
    ghost var s := CString(text);
    assert pt[..][..|s|] == s;
    r := ParsePlaintext(reg, pt, s);
    if r.Err? {
      forall ch ensures !ParsesTo(reg, s, ch) {
        if ParsesTo(reg, s, ch) { ReadsIsRight(reg, Split(s, FIELDS), ch, r.error); }
      }
    }
  }

  /** What a verification must report. */
  ghost predicate Verified(reg: seq<Algorithm>, cfg: Config, cr: Crypto, vault: Vault, value: string, now: int,
                           err: Option<CookieError>, out: Option<Challenge>) {
    && (out.Some? ==> Authentic(reg, cfg, cr, vault, value, out.value))
    && (out.None? ==> forall ch :: !Authentic(reg, cfg, cr, vault, value, ch))
    && (err == None <==> out.Some? && now <= out.value.expiresAt && CounterOk(reg, out.value, CounterOf(value), cr.sha256))
    && (err == Some(Expired) <==> out.Some? && now > out.value.expiresAt)
    && (err == Some(SignatureMismatch) <==>
          cfg.secret && exists e :: Carries(cr, value, e) && Opened(vault, cfg.keys, e) == None)
  }

  ghost predicate Misread(reg: seq<Algorithm>, text: Option<string>, why: ParseError) {
    text.Some? && FirstWrong(reg, Split(CString(text.value), FIELDS), why)
  }

  /** What is wrong with a counter that is not accepted. */
  ghost predicate CounterFault(reg: seq<Algorithm>, ch: Challenge, counter: string, v: Verdict) {
    var work := Registered(reg, ch.alg, Algorithm(ch.alg, Zeros));
    match v
    case Accepted => false
    case EmptyCounter => counter == []
    case CounterTooLong => work && |counter| > COUNTER_MAX
    case InsufficientZeros => work && 0 < |counter| <= COUNTER_MAX
  }

  /** What each refusal says; the situations exclude each other, so each has its one name. */
  ghost predicate Named(reg: seq<Algorithm>, cfg: Config, cr: Crypto, vault: Vault, value: string, now: int,
                        e: CookieError, out: Option<Challenge>) {
    var fits, dot := cfg.secret && |value| <= MAX_COOKIE, LastDot(value, |value|);
    match e
    case NoSecret => !cfg.secret
    case TooLong => cfg.secret && |value| > MAX_COOKIE
    case NoSeparator => fits && dot < 0
    case NotAnEnvelope => fits && dot >= 0 && cr.decode(value[..dot]) == None
    case SignatureMismatch => fits && exists env :: Carries(cr, value, env) && Opened(vault, cfg.keys, env) == None
    case Malformed(why) =>
      fits && exists env :: Carries(cr, value, env) && Misread(reg, Opened(vault, cfg.keys, env), why)
    case Expired => out.Some? && now > out.value.expiresAt
    case BadCounter(v) =>
      out.Some? && now <= out.value.expiresAt && CounterFault(reg, out.value, CounterOf(value), v)
  }

  /** The checks before anything is decrypted. */
  method Locate(cfg: Config, cr: Crypto, value: string) returns (r: Result<(Envelope, string), CookieError>)
    ensures match r
      case Ok((e, counter)) => cfg.secret && Carries(cr, value, e) && counter == CounterOf(value)
      case Err(why) =>
        && (!cfg.secret || forall e :: !Carries(cr, value, e))
        && (forall reg, vault, now :: Named(reg, cfg, cr, vault, value, now, why, None))
        && (why.NoSecret? || why.TooLong? || why.NoSeparator? || why.NotAnEnvelope?)
  {
    if !cfg.secret { return Err(NoSecret); }
    if |value| > MAX_COOKIE { return Err(TooLong); }
    var dot := LastDot(value, |value|);
    if dot < 0 { return Err(NoSeparator); }
    var env := cr.decode(value[..dot]);
    if env == None { return Err(NotAnEnvelope); }
    return Ok((env.value, value[dot + 1..]));
  }

  /** The outcome for what the envelope opened to. */
  ghost predicate Judged(reg: seq<Algorithm>, text: Option<string>, counter: string, sha256: seq<byte> -> Digest, now: int,
                         err: Option<CookieError>, out: Option<Challenge>) {
    && (out.Some? ==> text.Some? && ParsesTo(reg, CString(text.value), out.value))
    && match err
       case None => out.Some? && now <= out.value.expiresAt && CounterOk(reg, out.value, counter, sha256)
       case Some(SignatureMismatch) => text == None && out == None
       case Some(Malformed(why)) =>
         out == None && Misread(reg, text, why) && forall ch :: !ParsesTo(reg, CString(text.value), ch)
       case Some(Expired) => out.Some? && now > out.value.expiresAt
       case Some(BadCounter(v)) =>
         && out.Some? && now <= out.value.expiresAt && CounterFault(reg, out.value, counter, v)
         && !CounterOk(reg, out.value, counter, sha256)
       case Some(_) => false
  }

  method JudgeEnvelope(reg: seq<Algorithm>, keys: Keys, vault: Vault, env: Envelope, counter: string,
                       sha256: seq<byte> -> Digest, now: int) returns (err: Option<CookieError>, out: Option<Challenge>)
    requires Sound(reg)
    ensures Judged(reg, Opened(vault, keys, env), counter, sha256, now, err, out)
  {
    var text := OpenEnvelope(vault, keys, env);
    if text == None { return Some(SignatureMismatch), None; }
    var parsed := ReadText(reg, text.value);
    if parsed.Err? { return Some(Malformed(parsed.error)), None; }
    var ch := parsed.value;
    if now > ch.expiresAt { return Some(Expired), Some(ch); }
    var v := CheckCounter(reg, ch, counter, sha256);
    return if v == Accepted then None else Some(BadCounter(v)), Some(ch);
  }

  /** Only the one envelope in the cookie can make it authentic. */
  lemma {:induction false} JudgedIsVerified(reg: seq<Algorithm>, cfg: Config, cr: Crypto, vault: Vault, value: string, now: int,
                                            e: Envelope, err: Option<CookieError>, out: Option<Challenge>)
    requires cfg.secret && Carries(cr, value, e)
    requires Judged(reg, Opened(vault, cfg.keys, e), CounterOf(value), cr.sha256, now, err, out)
    ensures Verified(reg, cfg, cr, vault, value, now, err, out)
    ensures err.Some? ==> Named(reg, cfg, cr, vault, value, now, err.value, out)
  {}

  /** `bs_verify_cookie`: the challenge is handed out as soon as it is authentic, before the
      expiry and counter checks. */
  method VerifyCookie(reg: seq<Algorithm>, cfg: Config, cr: Crypto, vault: Vault, value: string, now: int)
      returns (err: Option<CookieError>, out: Option<Challenge>)
    requires Sound(reg)
    ensures Verified(reg, cfg, cr, vault, value, now, err, out)
    ensures err.Some? ==> Named(reg, cfg, cr, vault, value, now, err.value, out)
  {
    var located := Locate(cfg, cr, value);
    if located.Err? { return Some(located.error), None; }
    var (env, counter) := located.value;
    err, out := JudgeEnvelope(reg, cfg.keys, vault, env, counter, cr.sha256, now);
    JudgedIsVerified(reg, cfg, cr, vault, value, now, env, err, out);
  }

  // ----- carrying forward --------------------------------------------------------------------

  /** `bs_should_carry_prior_rep`: decided from the verdict alone. */
  function ShouldCarry(err: Option<CookieError>, out: Option<Challenge>): bool {
    match err
    case None => true
    case Some(SignatureMismatch) => false
    case Some(Expired) => false
    case Some(_) => out.Some?
  }

  lemma AuthenticUnique(reg: seq<Algorithm>, cfg: Config, cr: Crypto, vault: Vault, value: string, a: Challenge, b: Challenge)
    requires Authentic(reg, cfg, cr, vault, value, a) && Authentic(reg, cfg, cr, vault, value, b)
    ensures a == b
  {
    var e :| Carries(cr, value, e) && Opened(vault, cfg.keys, e).Some? && ParsesTo(reg, CString(Opened(vault, cfg.keys, e).value), a);
    ReadsUnique(reg, Split(CString(Opened(vault, cfg.keys, e).value), FIELDS), a, b);
  }

  /** The reputation is carried exactly when the envelope authenticates under either key, its
      text parses, and the cookie has not expired, whatever the counter says. */
  lemma CarryIff(reg: seq<Algorithm>, cfg: Config, cr: Crypto, vault: Vault, value: string, now: int,
                 err: Option<CookieError>, out: Option<Challenge>)
    requires Verified(reg, cfg, cr, vault, value, now, err, out)
    ensures ShouldCarry(err, out) <==> exists ch :: Authentic(reg, cfg, cr, vault, value, ch) && now <= ch.expiresAt
    ensures ShouldCarry(err, out) ==> out.Some? && forall ch :: Authentic(reg, cfg, cr, vault, value, ch) ==> ch == out.value
  {
    if out.Some? {
      forall ch | Authentic(reg, cfg, cr, vault, value, ch) ensures ch == out.value {
        AuthenticUnique(reg, cfg, cr, vault, value, ch, out.value);
      }
    }
  }

  ghost predicate Carried(reg: seq<Algorithm>, cfg: Config, cr: Crypto, vault: Vault, cookie: Option<string>, now: int,
                          prior: Option<Challenge>) {
    match prior
    case Some(ch) => cookie.Some? && Authentic(reg, cfg, cr, vault, cookie.value, ch) && now <= ch.expiresAt
    case None => cookie.Some? ==> forall ch :: Authentic(reg, cfg, cr, vault, cookie.value, ch) ==> now > ch.expiresAt
  }

  /** `bs_carry_forward_eligible`: no cookie, or an empty one, carries nothing. */
  method CarryForward(reg: seq<Algorithm>, cfg: Config, cr: Crypto, vault: Vault, cookie: Option<string>, now: int)
      returns (prior: Option<Challenge>)
    requires Sound(reg)
    ensures Carried(reg, cfg, cr, vault, cookie, now, prior)
  {
    if cookie == None || cookie.value == [] { return None; }
    var err, out := VerifyCookie(reg, cfg, cr, vault, cookie.value, now);
    CarryIff(reg, cfg, cr, vault, cookie.value, now, err, out);
    if ShouldCarry(err, out) { return out; }
    return None;
  }

  // ----- issuing -------------------------------------------------------------------------------

  datatype IssueError = NoIssueSecret | NoAlgorithm

  const FRESH_REP := Rep(0, 0, 0, 0, 0)

  /** `bs_issue_challenge`, with the random salt and nonce as inputs. */
  method IssueChallenge(reg: seq<Algorithm>, secret: bool, configured: Option<string>, chosen: Option<string>,
                        difficulty: int, ttl: int, auto: bool, rep: Option<Rep>, now: int,
                        salt: seq<byte>, nonce: seq<byte>) returns (r: Result<Challenge, IssueError>)
    requires |salt| == SALT_BYTES && |nonce| == NONCE_BYTES
    ensures r == Err(NoIssueSecret) <==> !secret
    ensures r == Err(NoAlgorithm) <==> secret && chosen == None && configured == None
    ensures r.Ok? ==>
      var ch, prior := r.value, if rep.Some? then rep.value else FRESH_REP;
      && ch == Challenge(VERSION, if chosen.Some? then chosen.value else configured.value, salt, nonce, difficulty,
                         now + ttl, prior.(challengedAt := now), if auto then 1 else 0)
      && (WellFormed(reg, ch) <==>
            Implemented(reg, ch.alg) && 1 <= difficulty <= 16 && 0 <= now + ttl <= INT64_MAX
            && RepFormed(prior.(challengedAt := now)))
  {
    if !secret { return Err(NoIssueSecret); }
    var alg := if chosen.Some? then chosen else configured;
    if alg == None { return Err(NoAlgorithm); }
    var next := if rep.Some? then rep.value else FRESH_REP;
    next := next.(challengedAt := now);
    return Ok(Challenge(VERSION, alg.value, salt, nonce, difficulty, now + ttl, next, if auto then 1 else 0));
  }

  /** `bs_build_cookie_payload`. */
  function Wire(cr: Crypto, e: Envelope, counter: string): string {
    cr.encode(e) + [DOT] + counter
  }

  lemma WireCarries(cr: Crypto, e: Envelope, counter: string)
    requires Exact(cr) && DotFree(counter) && |Wire(cr, e, counter)| <= MAX_COOKIE
    ensures Carries(cr, Wire(cr, e, counter), e) && CounterOf(Wire(cr, e, counter)) == counter
  {
    var v, n := Wire(cr, e, counter), |cr.encode(e)|;
    assert v[n] == DOT && v[..n] == cr.encode(e) && v[n + 1..] == counter;
    var i := LastDot(v, |v|);
    assert forall k :: n < k < |v| ==> v[k] == v[n + 1..][k - n - 1];
    assert i == n;
    assert cr.decode(cr.encode(e)) == Some(e);
  }

  // ----- key rotation ------------------------------------------------------------------------------

  /** The server over time: its keys, every envelope it has sealed and for which challenge, and
      when each key last stopped being primary. */
  datatype State = State(now: int, keys: Keys, vault: Vault, minted: map<Envelope, Challenge>, stopped: map<Key, int>)

  ghost predicate Tick(s: State, s': State, t: int) {
    t >= s.now && s' == s.(now := t)
  }

  /** A challenge with at most `ttl` to live is sealed under the primary key. */
  ghost predicate Mint(reg: seq<Algorithm>, ttl: nat, s: State, s': State, e: Envelope, ch: Challenge) {
    && e !in s.vault && WellFormed(reg, ch) && ch.expiresAt <= s.now + ttl
    && s' == s.(vault := s.vault[e := Sealed(s.keys.primary, Canonical(ch))], minted := s.minted[e := ch])
  }

  /** A key can leave the pair unless it is primary now, or was so less than `grace` ago. */
  ghost predicate MayLeave(grace: nat, s: State, k: Key) {
    k != s.keys.primary && (k in s.stopped ==> s.now >= s.stopped[k] + grace)
  }

  ghost predicate Rotate(grace: nat, s: State, s': State, keys: Keys) {
    && (forall k {:trigger Held(keys, k)} :: Held(s.keys, k) && !Held(keys, k) ==> MayLeave(grace, s, k))
    && s' == s.(keys := keys,
                stopped := if keys.primary == s.keys.primary then s.stopped else s.stopped[s.keys.primary := s.now])
  }

  ghost predicate Next(reg: seq<Algorithm>, ttl: nat, grace: nat, s: State, s': State) {
    || (exists t :: Tick(s, s', t))
    || (exists e, ch :: Mint(reg, ttl, s, s', e, ch))
    || (exists keys :: Rotate(grace, s, s', keys))
  }

  ghost predicate Initial(s: State) {
    s.vault == map[] && s.minted == map[] && s.stopped == map[]
  }

  ghost predicate Run(reg: seq<Algorithm>, ttl: nat, grace: nat, t: seq<State>) {
    && t != [] && Initial(t[0])
    && forall i {:trigger Next(reg, ttl, grace, t[i], t[i + 1])} :: 0 <= i < |t| - 1 ==> Next(reg, ttl, grace, t[i], t[i + 1])
  }

  /** A cookie is readable, or past its time; one sealed under a former primary expires within
      a `ttl` of when that key stopped. */
  ghost predicate Safe(reg: seq<Algorithm>, ttl: nat, s: State, e: Envelope)
    requires e in s.minted
  {
    && e in s.vault && s.vault[e].text == Canonical(s.minted[e]) && WellFormed(reg, s.minted[e])
    && var k, until := s.vault[e].key, s.minted[e].expiresAt;
      || s.now > until
      || (k == s.keys.primary && until <= s.now + ttl)
      || (Held(s.keys, k) && k in s.stopped && until <= s.stopped[k] + ttl)
  }

  ghost predicate Inv(reg: seq<Algorithm>, ttl: nat, s: State) {
    && s.vault.Keys == s.minted.Keys
    && (forall k :: k in s.stopped ==> s.stopped[k] <= s.now)
    && forall e {:trigger e in s.minted} :: e in s.minted ==> Safe(reg, ttl, s, e)
  }

  lemma MintKeeps(reg: seq<Algorithm>, ttl: nat, s: State, s': State, e: Envelope, ch: Challenge)
    requires Inv(reg, ttl, s) && Mint(reg, ttl, s, s', e, ch)
    ensures Inv(reg, ttl, s')
  {
    forall f | f in s'.minted ensures Safe(reg, ttl, s', f) {
      if f != e { assert f in s.minted && Safe(reg, ttl, s, f); }
    }
  }

  lemma TickKeeps(reg: seq<Algorithm>, ttl: nat, s: State, s': State, t: int)
    requires Inv(reg, ttl, s) && Tick(s, s', t)
    ensures Inv(reg, ttl, s')
  {
    forall f | f in s'.minted ensures Safe(reg, ttl, s', f) { assert f in s.minted && Safe(reg, ttl, s, f); }
  }

  lemma RotateKeeps(reg: seq<Algorithm>, ttl: nat, grace: nat, s: State, s': State, keys: Keys)
    requires Inv(reg, ttl, s) && Rotate(grace, s, s', keys) && grace > ttl
    ensures Inv(reg, ttl, s')
  {
    forall f | f in s'.minted ensures Safe(reg, ttl, s', f) {
      assert f in s.minted && Safe(reg, ttl, s, f);
      var k := s.vault[f].key;
      if Held(s.keys, k) && !Held(keys, k) { assert MayLeave(grace, s, k); }
    }
  }

  lemma {:induction false} Reachable(reg: seq<Algorithm>, ttl: nat, grace: nat, t: seq<State>, i: nat)
    requires Run(reg, ttl, grace, t) && i < |t| && grace > ttl
    ensures Inv(reg, ttl, t[i])
  {
    if i > 0 {
      var j := i - 1;
      Reachable(reg, ttl, grace, t, j);
      assert Next(reg, ttl, grace, t[j], t[j + 1]);
      if u :| Tick(t[j], t[i], u) {
        TickKeeps(reg, ttl, t[j], t[i], u);
      } else if e, ch :| Mint(reg, ttl, t[j], t[i], e, ch) {
        MintKeeps(reg, ttl, t[j], t[i], e, ch);
      } else {
        var keys :| Rotate(grace, t[j], t[i], keys);
        RotateKeeps(reg, ttl, grace, t[j], t[i], keys);
      }
    }
  }

  lemma CanonicalIsText(reg: seq<Algorithm>, ch: Challenge)
    requires Sound(reg) && WellFormed(reg, ch)
    ensures CString(Canonical(ch)) == Canonical(ch)
  {
    OwnFields(reg, ch);
    FieldsAreText(reg, Fields(ch), ch);
    JoinNulFree(Fields(ch));
    FirstAt(Canonical(ch), NUL, 0, |Canonical(ch)|);
  }

  lemma {:induction false} JoinNulFree(fs: seq<string>)
    requires fs != [] && forall k :: 0 <= k < |fs| ==> NulFree(fs[k])
    ensures NulFree(Join(fs))
  {
    if |fs| > 1 { JoinNulFree(fs[1..]); }
  }

  /** While its key is held, a minted envelope opens to exactly its challenge. */
  lemma OpensAs(reg: seq<Algorithm>, s: State, e: Envelope, ch: Challenge)
    requires Sound(reg) && e in s.vault && Held(s.keys, s.vault[e].key)
    requires WellFormed(reg, ch) && s.vault[e].text == Canonical(ch)
    ensures Opened(s.vault, s.keys, e).Some? && ParsesTo(reg, CString(Opened(s.vault, s.keys, e).value), ch)
  {
    CanonicalIsText(reg, ch);
    RoundTrip(reg, ch);
  }

  /** In every run whose keys stay in the pair for longer than a time-to-live after they stop
      being primary, each cookie minted authenticates as exactly its challenge until it expires,
      whatever counter it is presented with. */
  lemma ReadableUntilExpiry(reg: seq<Algorithm>, ttl: nat, grace: nat, t: seq<State>, i: nat, cr: Crypto, e: Envelope,
                            counter: string, ch: Challenge)
    requires Sound(reg) && Run(reg, ttl, grace, t) && grace > ttl && i < |t| && Exact(cr)
    requires e in t[i].minted && t[i].now <= t[i].minted[e].expiresAt
    requires DotFree(counter) && |Wire(cr, e, counter)| <= MAX_COOKIE
    ensures Authentic(reg, Config(true, t[i].keys), cr, t[i].vault, Wire(cr, e, counter), ch) <==> ch == t[i].minted[e]
  {
    var s := t[i];
    Reachable(reg, ttl, grace, t, i);
    assert Safe(reg, ttl, s, e);
    WireCarries(cr, e, counter);
    OpensAs(reg, s, e, s.minted[e]);
    var cfg, value := Config(true, s.keys), Wire(cr, e, counter);
    assert Authentic(reg, cfg, cr, s.vault, value, s.minted[e]);
    if Authentic(reg, cfg, cr, s.vault, value, ch) {
      AuthenticUnique(reg, cfg, cr, s.vault, value, ch, s.minted[e]);
    }
  }

  /** Nothing else authenticates: in any run at all, a cookie that does carries a minted
      envelope, sealed under a key still held, and reads as the challenge it was minted for. */
  lemma OnlyMinted(reg: seq<Algorithm>, ttl: nat, grace: nat, t: seq<State>, i: nat, cr: Crypto, value: string, ch: Challenge)
      returns (e: Envelope)
    requires Sound(reg) && Run(reg, ttl, grace, t) && i < |t|
    requires Authentic(reg, Config(true, t[i].keys), cr, t[i].vault, value, ch)
    ensures Carries(cr, value, e) && e in t[i].minted && t[i].minted[e] == ch
    ensures e in t[i].vault && Held(t[i].keys, t[i].vault[e].key)
  {
    var s := t[i];
    e :| Carries(cr, value, e) && Opened(s.vault, s.keys, e).Some? && ParsesTo(reg, CString(Opened(s.vault, s.keys, e).value), ch);
    Sealings(reg, ttl, grace, t, i);
    OpensAs(reg, s, e, s.minted[e]);
    ReadsUnique(reg, Split(CString(Opened(s.vault, s.keys, e).value), FIELDS), ch, s.minted[e]);
  }

  /** A client that sends its cookie back has exactly its own challenge carried forward while
      it is unexpired, and nothing afterwards. */
  lemma CarriedUntilExpiry(reg: seq<Algorithm>, ttl: nat, grace: nat, t: seq<State>, i: nat, cr: Crypto, e: Envelope,
                           counter: string, prior: Option<Challenge>)
    requires Sound(reg) && Run(reg, ttl, grace, t) && grace > ttl && i < |t| && Exact(cr) && e in t[i].minted
    requires DotFree(counter) && |Wire(cr, e, counter)| <= MAX_COOKIE
    requires Carried(reg, Config(true, t[i].keys), cr, t[i].vault, Some(Wire(cr, e, counter)), t[i].now, prior)
    ensures prior == if t[i].now <= t[i].minted[e].expiresAt then Some(t[i].minted[e]) else None
  {
    var s, value := t[i], Wire(cr, e, counter);
    WireCarries(cr, e, counter);
    if s.now <= s.minted[e].expiresAt {
      ReadableUntilExpiry(reg, ttl, grace, t, i, cr, e, counter, s.minted[e]);
      if prior.Some? { ReadableUntilExpiry(reg, ttl, grace, t, i, cr, e, counter, prior.value); }
    } else if prior.Some? {
      var _ := OnlyMinted(reg, ttl, grace, t, i, cr, value, prior.value);
    }
  }

  ghost predicate Honest(reg: seq<Algorithm>, s: State) {
    && s.vault.Keys == s.minted.Keys
    && forall e {:trigger e in s.minted} :: e in s.minted ==>
         e in s.vault && s.vault[e].text == Canonical(s.minted[e]) && WellFormed(reg, s.minted[e])
  }

  /** Every envelope is the seal of a minted, well-formed challenge. */
  lemma {:induction false} Sealings(reg: seq<Algorithm>, ttl: nat, grace: nat, t: seq<State>, i: nat)
    requires Run(reg, ttl, grace, t) && i < |t|
    ensures Honest(reg, t[i])
  {
    if i > 0 {
      var j := i - 1;
      Sealings(reg, ttl, grace, t, j);
      assert Next(reg, ttl, grace, t[j], t[j + 1]);
      assert Honest(reg, t[j]);
    }
  }

  /** No shorter stay will do: whenever a key may be dropped within a time-to-live of its last
      moment as primary, some run drops it with a cookie still unexpired, which no longer opens. */
  lemma GraceExact(reg: seq<Algorithm>, ttl: nat, grace: nat, ch: Challenge) returns (t: seq<State>, e: Envelope)
    requires grace <= ttl && WellFormed(reg, ch) && ch.expiresAt == ttl
    ensures Run(reg, ttl, grace, t)
    ensures var s := t[|t| - 1];
      e in s.minted && s.minted[e] == ch && s.now <= ch.expiresAt && Opened(s.vault, s.keys, e) == None
  {
    e := 0;
    var s0 := State(0, Keys(1, None), map[], map[], map[]);
    var s1 := s0.(vault := map[e := Sealed(1, Canonical(ch))], minted := map[e := ch]);
    var s2 := s1.(keys := Keys(2, Some(1)), stopped := map[1 := 0]);
    var s3 := s2.(now := grace);
    var s4 := s3.(keys := Keys(2, None));
    assert Mint(reg, ttl, s0, s1, e, ch);
    assert Rotate(grace, s1, s2, Keys(2, Some(1)));
    assert Tick(s2, s3, grace);
    assert Rotate(grace, s3, s4, Keys(2, None));
    t := [s0, s1, s2, s3, s4];
  }

  // ----- the table in use ---------------------------------------------------------------

  /** The registry by name: only sha256zeros asks for work, a session or captcha cookie for any
      counter, and no other name is ever accepted in a cookie. */
  lemma {:induction false} CounterByName(ch: Challenge, counter: string, sha256: seq<byte> -> Digest)
    ensures ch.alg == "sha256zeros" ==>
      (CounterOk(ALGORITHMS, ch, counter, sha256) <==>
         0 < |counter| <= COUNTER_MAX && 0 <= ch.difficulty <= 2 * DIGEST_LEN
         && Passes(sha256(ch.salt + ch.nonce + BytesOf(counter)), ch.difficulty))
    ensures AnyCounterName(ch.alg) ==> (CounterOk(ALGORITHMS, ch, counter, sha256) <==> counter != [])
    ensures WellFormed(ALGORITHMS, ch) ==> ch.alg == "sha256zeros" || AnyCounterName(ch.alg)
  {
    KindByName(ch.alg);
  }
}
