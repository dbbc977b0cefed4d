/**
 The plaintext of a session cookie: printed from a challenge as twelve '|'-separated fields,
 and read back by a parser that admits one surface form of each field.
 */
module Cookie {
  import opened Text
  import opened Wrappers
  import opened Pow
  import opened Codec
  import opened AlgorithmTable

  const VERSION := 7
  const FIELDS := 12
  const INT_MAX := 0x7fff_ffff
  const INT64_MAX := 0x7fff_ffff_ffff_ffff
  const UINT32_MAX := 0xffff_ffff

  // ----- challenges and their canonical form ---------------------------------------------

  /** What a client has passed, and when; carried from cookie to cookie. */
  datatype Rep = Rep(nonInteractive: int, interactive: int, captcha: int, challengedAt: int, flags: nat)

  datatype Challenge = Challenge(version: int, alg: string, salt: seq<byte>, nonce: seq<byte>, difficulty: int,
                                 expiresAt: int, rep: Rep, auto: int)

  ghost predicate RepFormed(r: Rep) {
    && 0 <= r.nonInteractive <= 1 && 0 <= r.interactive <= 1 && 0 <= r.captcha <= 1
    && 0 <= r.challengedAt <= INT64_MAX && r.flags <= UINT32_MAX
  }

  ghost predicate WellFormed(reg: seq<Algorithm>, ch: Challenge) {
    && ch.version == VERSION && Implemented(reg, ch.alg) && |ch.salt| == SALT_BYTES && |ch.nonce| == NONCE_BYTES
    && 1 <= ch.difficulty <= 16 && 0 <= ch.expiresAt <= INT64_MAX && 0 <= ch.auto <= 1 && RepFormed(ch.rep)
  }

  /** The integer printed in field `k`. */
  function Number(ch: Challenge, k: nat): int {
    match k
    case 0 => ch.version
    case 4 => ch.difficulty
    case 5 => ch.expiresAt
    case 6 => ch.rep.nonInteractive
    case 7 => ch.rep.interactive
    case 8 => ch.rep.captcha
    case 9 => ch.rep.challengedAt
    case 10 => if ch.auto != 0 then 1 else 0
    case _ => ch.rep.flags
  }

  function Field(ch: Challenge, k: nat): string {
    match k
    case 1 => ch.alg
    case 2 => Hex(ch.salt)
    case 3 => Hex(ch.nonce)
    case _ => Integer(Number(ch, k))
  }

  function Fields(ch: Challenge): (fs: seq<string>)
    ensures |fs| == FIELDS && forall k :: 0 <= k < FIELDS ==> fs[k] == Field(ch, k)
  {
    seq(FIELDS, k requires 0 <= k < FIELDS => Field(ch, k))
  }

  /** `bs_challenge_canonical`. */
  function Canonical(ch: Challenge): string {
    Join(Fields(ch))
  }

  function Then(field: string, rest: string): string {
    field + "|" + rest
  }

  function PassText(r: Rep, rest: string): string {
    Then(Integer(r.nonInteractive), Then(Integer(r.interactive), Then(Integer(r.captcha), rest)))
  }

  function RestText(r: Rep, auto: int): string {
    Then(Integer(r.challengedAt), Then(if auto != 0 then "1" else "0", Integer(r.flags)))
  }

  /** The canonical form, field by field. */
  lemma {:induction false} CanonicalIs(ch: Challenge)
    ensures Canonical(ch) ==
      Then(Integer(ch.version), Then(ch.alg, Then(Hex(ch.salt), Then(Hex(ch.nonce), Then(Integer(ch.difficulty),
        Then(Integer(ch.expiresAt), PassText(ch.rep, RestText(ch.rep, ch.auto))))))))
  {
    var fs := Fields(ch);
    RepIs(ch, fs);
    JoinTwo(fs, 5);
    JoinTwo(fs, 4);
    JoinTwo(fs, 3);
    JoinTwo(fs, 2);
    JoinTwo(fs, 1);
    JoinTwo(fs, 0);
    assert fs[0..] == fs;
  }

  lemma RepIs(ch: Challenge, fs: seq<string>)
    requires |fs| == FIELDS && forall k :: 6 <= k < FIELDS ==> fs[k] == Field(ch, k)
    ensures Join(fs[6..]) == PassText(ch.rep, RestText(ch.rep, ch.auto))
  {
    RestIs(ch, fs);
    JoinTwo(fs, 8);
    JoinTwo(fs, 7);
    JoinTwo(fs, 6);
  }

  lemma RestIs(ch: Challenge, fs: seq<string>)
    requires |fs| == FIELDS && forall k :: 9 <= k < FIELDS ==> fs[k] == Field(ch, k)
    ensures Join(fs[9..]) == RestText(ch.rep, ch.auto)
  {
    assert fs[11..] == [fs[11]] && Integer(1) == "1" && Integer(0) == "0";
    JoinTwo(fs, 10);
    JoinTwo(fs, 9);
  }

  lemma JoinTwo(fs: seq<string>, k: nat)
    requires k + 1 < |fs|
    ensures Join(fs[k..]) == Then(fs[k], Join(fs[k + 1..]))
  {
    assert fs[k..][1..] == fs[k + 1..];
  }

  // ----- the parser -------------------------------------------------------------------------

  /** In the order the checks are made; `BadNumber(k)` complains of the integer in field `k`. */
  datatype ParseError = WrongCount | BadForm | BadVersion | UnknownAlgorithm | BadSalt | BadNonce | BadNumber(k: nat)

  function Order(e: ParseError): nat {
    match e
    case WrongCount => 0
    case BadForm => 1
    case BadVersion => 2
    case UnknownAlgorithm => 3
    case BadSalt => 4
    case BadNonce => 5
    case BadNumber(k) => k + 2
  }

  predicate Numbered(k: int) {
    4 <= k < FIELDS
  }

  /** Bounds on the integers after the nonce. */
  datatype Bounds = Bounds(lo: nat, hi: nat, maxLen: nat)

  function BoundsOf(k: nat): Bounds {
    match k
    case 4 => Bounds(1, 16, 2)
    case 5 => Bounds(0, INT64_MAX, 19)
    case 9 => Bounds(0, INT64_MAX, 19)
    case 11 => Bounds(0, UINT32_MAX, 10)
    case _ => Bounds(0, 1, 1)
  }

  ghost predicate Strictly(fs: seq<string>)
    requires |fs| == FIELDS
  {
    IsDecimal(fs[0]) && forall k :: Numbered(k) ==> IsDecimal(fs[k])
  }

  ghost predicate SpellsBytes(s: string, n: nat) {
    exists b :: |b| == n && HexFor(s, b)
  }

  /** What each complaint says is wrong. */
  ghost predicate Wrong(reg: seq<Algorithm>, fs: seq<string>, e: ParseError) {
    if |fs| != FIELDS then e == WrongCount
    else match e
      case WrongCount => false
      case BadForm => !Strictly(fs)
      case BadVersion => fs[0] != Decimal(VERSION)
      case UnknownAlgorithm => !Implemented(reg, fs[1])
      case BadSalt => !SpellsBytes(fs[2], SALT_BYTES)
      case BadNonce => !SpellsBytes(fs[3], NONCE_BYTES)
      case BadNumber(k) => Numbered(k) && !InRange(fs[k], BoundsOf(k).lo, BoundsOf(k).hi)
  }

  /** The fields are a well-formed challenge's, up to the letter case of its two hexadecimal
      fields. */
  ghost predicate Reads(reg: seq<Algorithm>, fs: seq<string>, ch: Challenge) {
    && |fs| == FIELDS && WellFormed(reg, ch) && HexFor(fs[2], ch.salt) && HexFor(fs[3], ch.nonce)
    && forall k :: 0 <= k < FIELDS && k != 2 && k != 3 ==> fs[k] == Field(ch, k)
  }

  /** Every check before the `n`th passes. */
  ghost predicate Clear(reg: seq<Algorithm>, fs: seq<string>, n: nat) {
    forall e :: Order(e) < n ==> !Wrong(reg, fs, e)
  }

  ghost predicate FirstWrong(reg: seq<Algorithm>, fs: seq<string>, e: ParseError) {
    Wrong(reg, fs, e) && Clear(reg, fs, Order(e))
  }

  /** The surface-form gate over all integer fields. */
  method AllStrict(fs: seq<string>) returns (ok: bool)
    requires |fs| == FIELDS
    ensures ok <==> Strictly(fs)
  {
    ok := StrictIntForm(fs[0], false);
    if !ok { return false; }
    for k := 4 to FIELDS
      invariant forall i :: 4 <= i < k ==> IsDecimal(fs[i])
    {
      ok := StrictIntForm(fs[k], false);
      if !ok {
        assert Numbered(k);
        return false;
      }
    }
    return true;
  }

  lemma Powers()
    ensures Pow10(1) == 10 && Pow10(2) == 100 && Pow10(10) == 10_000_000_000
    ensures Pow10(19) == 10_000_000_000_000_000_000
  {
    assert Pow10(4) == 10_000;
    assert Pow10(7) == 10_000_000;
    assert Pow10(10) == 10_000_000_000;
    assert Pow10(13) == 10_000_000_000_000;
    assert Pow10(16) == 10_000_000_000_000_000;
  }

  /** A hexadecimal field of exactly `n` bytes. */
  method ReadBytes(s: string, n: nat) returns (r: Option<seq<byte>>)
    ensures r.None? <==> !SpellsBytes(s, n)
    ensures r.Some? ==> |r.value| == n && HexFor(s, r.value)
  {
    if |s| != 2 * n {
      forall b | HexFor(s, b) ensures |b| != n { assert |Lower(s)| == |Hex(b)|; }
      return None;
    }
    r := FromHex(s, n);
  }

  method ReadVersion(reg: seq<Algorithm>, fs: seq<string>) returns (ok: bool)
    requires |fs| == FIELDS && Strictly(fs)
    ensures ok <==> !Wrong(reg, fs, BadVersion)
  {
    Powers();
    var version := ReadInt(fs[0], 0, INT_MAX, 10);
    DecimalReads(VERSION);
    if version == None { return false; }
    DecimalReads(version.value);
    ok := version.value == VERSION;
  }

  method FindImplemented(reg: seq<Algorithm>, name: string) returns (ok: bool)
    requires Sound(reg)
    ensures ok <==> Implemented(reg, name)
  {
    var alg := FindAlgorithm(reg, name);
    if alg == None { return false; }
    ok := alg.value.kind != Reserved;
    if !ok {
      forall a | Registered(reg, name, a) ensures a.kind == Reserved { RegisteredUnique(reg, name, a, alg.value); }
    }
  }

  /** Salt and nonce, once the checks before them have passed. */
  method ReadHead(reg: seq<Algorithm>, fs: seq<string>) returns (r: Result<(seq<byte>, seq<byte>), ParseError>)
    requires Sound(reg) && |fs| == FIELDS && Clear(reg, fs, 2)
    ensures match r
      case Ok((salt, nonce)) =>
        Clear(reg, fs, 6) && |salt| == SALT_BYTES && HexFor(fs[2], salt) && |nonce| == NONCE_BYTES && HexFor(fs[3], nonce)
      case Err(e) => FirstWrong(reg, fs, e)
  {
    assert !Wrong(reg, fs, BadForm);
    var ok := ReadVersion(reg, fs);
    if !ok { return Err(BadVersion); }
    ok := FindImplemented(reg, fs[1]);
    if !ok { return Err(UnknownAlgorithm); }
    var salt := ReadBytes(fs[2], SALT_BYTES);
    if salt == None { return Err(BadSalt); }
    var nonce := ReadBytes(fs[3], NONCE_BYTES);
    if nonce == None { return Err(BadNonce); }
    return Ok((salt.value, nonce.value));
  }

  method ReadNumber(reg: seq<Algorithm>, fs: seq<string>, k: nat) returns (r: Result<nat, ParseError>)
    requires |fs| == FIELDS && Numbered(k) && Clear(reg, fs, k + 2)
    ensures match r
      case Ok(n) => fs[k] == Decimal(n) && BoundsOf(k).lo <= n <= BoundsOf(k).hi && Clear(reg, fs, k + 3)
      case Err(e) => FirstWrong(reg, fs, e)
  {
    Powers();
    assert !Wrong(reg, fs, BadForm);
    var b := BoundsOf(k);
    var n := ReadInt(fs[k], b.lo, b.hi, b.maxLen);
    if n == None { return Err(BadNumber(k)); }
    return Ok(n.value);
  }

  /** The reputation block and the auto marker. */
  method ReadRep(reg: seq<Algorithm>, fs: seq<string>) returns (r: Result<(Rep, int), ParseError>)
    requires |fs| == FIELDS && Clear(reg, fs, 8)
    ensures match r
      case Ok((rep, auto)) =>
        && RepFormed(rep) && 0 <= auto <= 1
        && fs[6] == Decimal(rep.nonInteractive) && fs[7] == Decimal(rep.interactive) && fs[8] == Decimal(rep.captcha)
        && fs[9] == Decimal(rep.challengedAt) && fs[10] == Decimal(auto) && fs[11] == Decimal(rep.flags)
      case Err(e) => FirstWrong(reg, fs, e)
  {
    var nonInteractive := ReadNumber(reg, fs, 6);
    if nonInteractive.Err? { return Err(nonInteractive.error); }
    var interactive := ReadNumber(reg, fs, 7);
    if interactive.Err? { return Err(interactive.error); }
    var captcha := ReadNumber(reg, fs, 8);
    if captcha.Err? { return Err(captcha.error); }
    var challengedAt := ReadNumber(reg, fs, 9);
    if challengedAt.Err? { return Err(challengedAt.error); }
    var auto := ReadNumber(reg, fs, 10);
    if auto.Err? { return Err(auto.error); }
    var flags := ReadNumber(reg, fs, 11);
    if flags.Err? { return Err(flags.error); }
    return Ok((Rep(nonInteractive.value, interactive.value, captcha.value, challengedAt.value, flags.value), auto.value));
  }

  /** `bs_parse_canonical_fields`: it succeeds exactly on the fields of some challenge, which
      it gives; otherwise it names the first thing wrong. */
  method ParseFields(reg: seq<Algorithm>, fs: seq<string>) returns (r: Result<Challenge, ParseError>)
    requires Sound(reg)
    ensures match r
      case Ok(ch) => Reads(reg, fs, ch)
      case Err(e) => FirstWrong(reg, fs, e)
  {
    if |fs| != FIELDS { return Err(WrongCount); }
    var strict := AllStrict(fs);
    if !strict { return Err(BadForm); }
    var head := ReadHead(reg, fs);
    if head.Err? { return Err(head.error); }
    var difficulty := ReadNumber(reg, fs, 4);
    if difficulty.Err? { return Err(difficulty.error); }
    var expiresAt := ReadNumber(reg, fs, 5);
    if expiresAt.Err? { return Err(expiresAt.error); }
    var tail := ReadRep(reg, fs);
    if tail.Err? { return Err(tail.error); }
    var (salt, nonce) := head.value;
    var (rep, auto) := tail.value;
    var ch := Challenge(VERSION, fs[1], salt, nonce, difficulty.value, expiresAt.value, rep, auto);
    AllRead(reg, fs, ch);
    return Ok(ch);
  }

  lemma AllRead(reg: seq<Algorithm>, fs: seq<string>, ch: Challenge)
    requires |fs| == FIELDS && Clear(reg, fs, 6) && ch.version == VERSION && ch.alg == fs[1]
    requires |ch.salt| == SALT_BYTES && HexFor(fs[2], ch.salt) && |ch.nonce| == NONCE_BYTES && HexFor(fs[3], ch.nonce)
    requires 1 <= ch.difficulty <= 16 && fs[4] == Decimal(ch.difficulty)
    requires 0 <= ch.expiresAt <= INT64_MAX && fs[5] == Decimal(ch.expiresAt)
    requires RepFormed(ch.rep) && 0 <= ch.auto <= 1
    requires fs[6] == Decimal(ch.rep.nonInteractive) && fs[7] == Decimal(ch.rep.interactive)
    requires fs[8] == Decimal(ch.rep.captcha) && fs[9] == Decimal(ch.rep.challengedAt)
    requires fs[10] == Decimal(ch.auto) && fs[11] == Decimal(ch.rep.flags)
    ensures Reads(reg, fs, ch)
  {
    assert !Wrong(reg, fs, BadVersion) && !Wrong(reg, fs, UnknownAlgorithm);
  }

  /** Nothing is wrong with the fields of a challenge, so the parser's verdicts exclude each
      other. */
  lemma ReadsIsRight(reg: seq<Algorithm>, fs: seq<string>, ch: Challenge, e: ParseError)
    requires Reads(reg, fs, ch)
    ensures !Wrong(reg, fs, e)
  {
    assert Integer(VERSION) == Decimal(VERSION);
  }

  lemma IntegerInjective(a: int, b: int)
    requires Integer(a) == Integer(b)
    ensures a == b
  {
    var m, n := if a < 0 then -a else a, if b < 0 then -b else b;
    DecimalReads(m);
    DecimalReads(n);
    assert Integer(a)[0] == Integer(b)[0];
    if a < 0 {
      assert Integer(a)[1..] == Decimal(m) && Integer(b)[1..] == Decimal(n);
    }
  }

  /** The same fields never read as two challenges. */
  lemma ReadsUnique(reg: seq<Algorithm>, fs: seq<string>, a: Challenge, b: Challenge)
    requires Reads(reg, fs, a) && Reads(reg, fs, b)
    ensures a == b
  {
    HexInjective(a.salt, b.salt);
    HexInjective(a.nonce, b.nonce);
    assert Field(a, 0) == Field(b, 0) && Field(a, 1) == Field(b, 1) && Field(a, 4) == Field(b, 4) && Field(a, 5) == Field(b, 5);
    IntegerInjective(a.version, b.version);
    IntegerInjective(a.difficulty, b.difficulty);
    IntegerInjective(a.expiresAt, b.expiresAt);
    RepUnique(reg, a, b);
  }

  lemma RepUnique(reg: seq<Algorithm>, a: Challenge, b: Challenge)
    requires WellFormed(reg, a) && WellFormed(reg, b)
    requires forall i :: 6 <= i < FIELDS ==> Field(a, i) == Field(b, i)
    ensures a.rep == b.rep && a.auto == b.auto
  {
    assert Field(a, 6) == Field(b, 6) && Field(a, 7) == Field(b, 7) && Field(a, 8) == Field(b, 8);
    assert Field(a, 9) == Field(b, 9) && Field(a, 10) == Field(b, 10) && Field(a, 11) == Field(b, 11);
    IntegerInjective(a.rep.nonInteractive, b.rep.nonInteractive);
    IntegerInjective(a.rep.interactive, b.rep.interactive);
    IntegerInjective(a.rep.captcha, b.rep.captcha);
    IntegerInjective(a.rep.challengedAt, b.rep.challengedAt);
    IntegerInjective(a.auto, b.auto);
    IntegerInjective(a.rep.flags, b.rep.flags);
  }

  // ----- plaintexts ----------------------------------------------------------------------------

  /** Splitting and parsing the text gives the challenge. */
  ghost predicate ParsesTo(reg: seq<Algorithm>, s: string, ch: Challenge) {
    Reads(reg, Split(s, FIELDS), ch)
  }

  ghost predicate FieldsAt(buf: array<char>, starts: seq<nat>, fs: seq<string>)
    reads buf
  {
    |starts| == |fs| && forall k :: 0 <= k < |fs| ==> starts[k] <= buf.Length && HoldsString(buf[starts[k]..], fs[k])
  }

  /** The decrypted buffer is split in place and its fields are parsed where they stand. */
  method ParsePlaintext(reg: seq<Algorithm>, buf: array<char>, ghost s: string) returns (r: Result<Challenge, ParseError>)
    requires Sound(reg) && HoldsString(buf[..], s)
    modifies buf
    ensures match r
      case Ok(ch) => ParsesTo(reg, s, ch)
      case Err(e) => FirstWrong(reg, Split(s, FIELDS), e)
  {
    var starts := SplitInPlace(buf, s, FIELDS);
    var fs: seq<string> := [];
    for k := 0 to |starts|
      invariant fs == Split(s, FIELDS)[..k] && FieldsAt(buf, starts, Split(s, FIELDS))
    {
      var f := ReadString(buf, starts[k], Split(s, FIELDS)[k]);
      fs := fs + [f];
    }
    r := ParseFields(reg, fs);
  }

  lemma DecimalIsText(n: nat)
    ensures BarFree(Decimal(n)) && NulFree(Decimal(n))
  {
    DecimalReads(n);
  }

  lemma HexIsText(s: string, b: seq<byte>)
    requires HexFor(s, b)
    ensures BarFree(s) && NulFree(s)
  {
    HexIsLower(b);
    forall i | 0 <= i < |s| ensures HexValue(s[i]) >= 0 {
      assert Lower(s)[i] == LowerChar(s[i]) == Hex(b)[i];
    }
  }

  lemma FieldsAreText(reg: seq<Algorithm>, fs: seq<string>, ch: Challenge)
    requires Sound(reg) && Reads(reg, fs, ch)
    ensures forall k :: 0 <= k < |fs| ==> BarFree(fs[k]) && NulFree(fs[k])
  {
    forall n: nat ensures BarFree(Decimal(n)) && NulFree(Decimal(n)) { DecimalIsText(n); }
    ImplementedIsText(reg, ch.alg);
    HexIsText(fs[2], ch.salt);
    HexIsText(fs[3], ch.nonce);
    forall k | 0 <= k < |fs| ensures BarFree(fs[k]) && NulFree(fs[k]) {
      if k != 2 && k != 3 { assert fs[k] == Fields(ch)[k]; }
    }
  }

  lemma OwnFields(reg: seq<Algorithm>, ch: Challenge)
    requires WellFormed(reg, ch)
    ensures Reads(reg, Fields(ch), ch)
  {
    HexIsLower(ch.salt);
    HexIsLower(ch.nonce);
    assert Fields(ch)[2 := Fields(ch)[2]][3 := Fields(ch)[3]] == Fields(ch);
  }

  /** The printed form of a challenge parses back to it exactly when it is well-formed. */
  lemma RoundTrip(reg: seq<Algorithm>, ch: Challenge)
    requires Sound(reg)
    ensures ParsesTo(reg, Canonical(ch), ch) <==> WellFormed(reg, ch)
  {
    if WellFormed(reg, ch) {
      OwnFields(reg, ch);
      FieldsAreText(reg, Fields(ch), ch);
      SplitJoin(Fields(ch), FIELDS);
    }
  }

  /** An accepted text is the printed form of its challenge, but for the letters `u` and `v`
      its salt and nonce are spelled with; in lowercase it is the printed form itself. */
  lemma Reprints(reg: seq<Algorithm>, s: string, ch: Challenge) returns (u: string, v: string)
    requires ParsesTo(reg, s, ch)
    ensures HexFor(u, ch.salt) && HexFor(v, ch.nonce)
    ensures s == Join(Fields(ch)[2 := u][3 := v])
    ensures Lower(u) == u && Lower(v) == v ==> s == Canonical(ch)
  {
    var fs := Split(s, FIELDS);
    u, v := fs[2], fs[3];
    JoinSplit(s, FIELDS);
    assert fs == Fields(ch)[2 := u][3 := v];
    if Lower(u) == u && Lower(v) == v {
      assert Fields(ch)[2 := u][3 := v] == Fields(ch);
    }
  }

  /** A text with a field too many or too few is refused, whatever the fields. */
  lemma ElevenBars(reg: seq<Algorithm>, s: string, ch: Challenge)
    requires Sound(reg) && multiset(s)[BAR] != FIELDS - 1
    ensures !ParsesTo(reg, s, ch)
  {
    if ParsesTo(reg, s, ch) {
      FieldsAreText(reg, Split(s, FIELDS), ch);
      JoinSplit(s, FIELDS);
      BarsOfJoin(Split(s, FIELDS));
    }
  }

  /** Two texts with the same lowercase salt and nonce spelling are accepted as the same
      challenge only if they are the same text: no integer has a second form. */
  lemma OneForm(reg: seq<Algorithm>, s: string, t: string, ch: Challenge)
    requires ParsesTo(reg, s, ch) && ParsesTo(reg, t, ch)
    ensures Lower(s) == Lower(t)
    ensures |s| == |t| == |Canonical(ch)|
  {
    CaseOnly(reg, s, ch);
    CaseOnly(reg, t, ch);
  }

  lemma CaseOnly(reg: seq<Algorithm>, s: string, ch: Challenge)
    requires ParsesTo(reg, s, ch)
    ensures Lower(s) == Lower(Canonical(ch)) && |s| == |Canonical(ch)|
  {
    var u, v := Reprints(reg, s, ch);
    OwnFields(reg, ch);
    var fs, gs := Fields(ch)[2 := u][3 := v], Fields(ch);
    forall k | 0 <= k < FIELDS ensures Lower(fs[k]) == Lower(gs[k]) {
      HexIsLower(ch.salt);
      HexIsLower(ch.nonce);
    }
    LowerJoin(fs, gs);
    assert |Lower(s)| == |Lower(Canonical(ch))|;
  }

  lemma {:induction false} LowerJoin(fs: seq<string>, gs: seq<string>)
    requires 0 < |fs| == |gs| && forall k :: 0 <= k < |fs| ==> Lower(fs[k]) == Lower(gs[k])
    ensures Lower(Join(fs)) == Lower(Join(gs))
  {
    if |fs| > 1 {
      LowerJoin(fs[1..], gs[1..]);
    }
  }
}
