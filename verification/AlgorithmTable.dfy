/** The table of challenge algorithms a cookie can name. */
module AlgorithmTable {
  import opened Text
  import opened Wrappers
  import opened Codec

  /** How an algorithm treats the counter; reserved ones have no callbacks. */
  datatype Kind = Zeros | AnyCounter | Reserved

  datatype Algorithm = Algorithm(name: string, kind: Kind)

  const ALGORITHMS: seq<Algorithm> := [
    Algorithm("sha256zeros", Zeros),
    Algorithm("session", AnyCounter),
    Algorithm("captcha-turnstile", AnyCounter),
    Algorithm("captcha-hcaptcha", AnyCounter),
    Algorithm("captcha-recaptcha-v2", AnyCounter),
    Algorithm("captcha-recaptcha-v3", AnyCounter),
    Algorithm("captcha-friendly", AnyCounter),
    Algorithm("captcha-geetest", AnyCounter),
    Algorithm("sha384-zeros", Reserved),
    Algorithm("sha512-zeros", Reserved),
    Algorithm("pbkdf2-sha256", Reserved),
    Algorithm("argon2id", Reserved)]

  /** What the cookie format asks of a table: no two rows share a name, and no name holds a
      separator or a terminator. */
  ghost predicate Sound(reg: seq<Algorithm>) {
    && (forall i, j :: 0 <= i < |reg| && 0 <= j < |reg| && reg[i].name == reg[j].name ==> i == j)
    && forall i :: 0 <= i < |reg| ==> BarFree(reg[i].name) && NulFree(reg[i].name)
  }

  lemma AlgorithmsAreSound()
    ensures Sound(ALGORITHMS)
  {
    forall i, j | 0 <= i < |ALGORITHMS| && 0 <= j < |ALGORITHMS| && ALGORITHMS[i].name == ALGORITHMS[j].name ensures i == j {
      NamesDistinct(i, j);
    }
    forall i | 0 <= i < |ALGORITHMS| ensures BarFree(ALGORITHMS[i].name) && NulFree(ALGORITHMS[i].name) {
      NamesAreText(i);
    }
  }

  lemma NamesDistinct(i: nat, j: nat)
    requires i < |ALGORITHMS| && j < |ALGORITHMS| && ALGORITHMS[i].name == ALGORITHMS[j].name
    ensures i == j
  {}

  lemma NamesAreText(i: nat)
    requires i < |ALGORITHMS|
    ensures BarFree(ALGORITHMS[i].name) && NulFree(ALGORITHMS[i].name)
  {
    forall k | 0 <= k < |ALGORITHMS[i].name| ensures ALGORITHMS[i].name[k] != BAR && ALGORITHMS[i].name[k] != NUL {
      NameChar(i, k);
    }
  }

  /** The names are spelled with letters, digits and hyphens. */
  lemma NameChar(i: nat, k: nat)
    requires i < |ALGORITHMS| && k < |ALGORITHMS[i].name|
    ensures '-' <= ALGORITHMS[i].name[k] <= 'z'
  {}

  ghost predicate Registered(reg: seq<Algorithm>, name: string, a: Algorithm) {
    a in reg && a.name == name
  }

  ghost predicate Implemented(reg: seq<Algorithm>, name: string) {
    exists a :: Registered(reg, name, a) && a.kind != Reserved
  }

  lemma RegisteredUnique(reg: seq<Algorithm>, name: string, a: Algorithm, b: Algorithm)
    requires Sound(reg) && Registered(reg, name, a) && Registered(reg, name, b)
    ensures a == b
  {}

  /** `bs_find_algorithm`. */
  method FindAlgorithm(reg: seq<Algorithm>, name: string) returns (a: Option<Algorithm>)
    ensures a.Some? ==> Registered(reg, name, a.value)
    ensures a.None? ==> forall b :: !Registered(reg, name, b)
  {
    for i := 0 to |reg|
      invariant forall k :: 0 <= k < i ==> reg[k].name != name
    {
      if reg[i].name == name { return Some(reg[i]); }
    }
    return None;
  }

  lemma ImplementedIsText(reg: seq<Algorithm>, name: string)
    requires Sound(reg) && Implemented(reg, name)
    ensures BarFree(name) && NulFree(name)
  {}

  predicate AnyCounterName(name: string) {
    name == "session" || name == "captcha-turnstile" || name == "captcha-hcaptcha" || name == "captcha-recaptcha-v2"
    || name == "captcha-recaptcha-v3" || name == "captcha-friendly" || name == "captcha-geetest"
  }

  lemma RowsByNumber(i: nat)
    requires i < |ALGORITHMS|
    ensures ALGORITHMS[i].kind == if i == 0 then Zeros else if i < 8 then AnyCounter else Reserved
    ensures i == 0 ==> ALGORITHMS[i].name == "sha256zeros"
    ensures 1 <= i < 8 ==> AnyCounterName(ALGORITHMS[i].name)
  {}

  lemma RowOf(name: string)
    ensures |ALGORITHMS| == 12 && (AnyCounterName(name) ==> exists i :: 1 <= i < 8 && ALGORITHMS[i].name == name)
  {
    assert ALGORITHMS[1].name == "session" && ALGORITHMS[2].name == "captcha-turnstile";
    assert ALGORITHMS[3].name == "captcha-hcaptcha" && ALGORITHMS[4].name == "captcha-recaptcha-v2";
    assert ALGORITHMS[5].name == "captcha-recaptcha-v3" && ALGORITHMS[6].name == "captcha-friendly";
    assert ALGORITHMS[7].name == "captcha-geetest";
  }

  ghost predicate InRow(name: string, kind: Kind, i: nat) {
    i < |ALGORITHMS| && ALGORITHMS[i].name == name && ALGORITHMS[i].kind == kind
  }

  lemma RegisteredInRow(name: string, kind: Kind)
    ensures Registered(ALGORITHMS, name, Algorithm(name, kind)) <==> exists i: nat :: InRow(name, kind, i)
  {
    if i: nat :| InRow(name, kind, i) { assert ALGORITHMS[i] == Algorithm(name, kind); }
    if Registered(ALGORITHMS, name, Algorithm(name, kind)) {
      var i :| 0 <= i < |ALGORITHMS| && ALGORITHMS[i] == Algorithm(name, kind);
      assert InRow(name, kind, i);
    }
  }

  /** The table by name: what asks for work, what for any counter, and nothing else in use. */
  lemma {:induction false} KindByName(name: string)
    ensures Registered(ALGORITHMS, name, Algorithm(name, Zeros)) <==> name == "sha256zeros"
    ensures Registered(ALGORITHMS, name, Algorithm(name, AnyCounter)) <==> AnyCounterName(name)
    ensures Implemented(ALGORITHMS, name) ==> name == "sha256zeros" || AnyCounterName(name)
  {
    ZerosByName(name);
    CounterNames(name);
    if a :| Registered(ALGORITHMS, name, a) && a.kind != Reserved {
      assert a == Algorithm(name, a.kind);
      assert a.kind == Zeros || a.kind == AnyCounter;
    }
  }

  lemma ZerosByName(name: string)
    ensures Registered(ALGORITHMS, name, Algorithm(name, Zeros)) <==> name == "sha256zeros"
  {
    RegisteredInRow(name, Zeros);
    RowsByNumber(0);
    if name == "sha256zeros" { assert InRow(name, Zeros, 0); }
    if i: nat :| InRow(name, Zeros, i) { RowsByNumber(i); }
  }

  lemma CounterNames(name: string)
    ensures Registered(ALGORITHMS, name, Algorithm(name, AnyCounter)) <==> AnyCounterName(name)
  {
    RegisteredInRow(name, AnyCounter);
    RowOf(name);
    if AnyCounterName(name) {
      var i :| 1 <= i < 8 && ALGORITHMS[i].name == name;
      RowsByNumber(i);
      assert InRow(name, AnyCounter, i);
    }
    if i: nat :| InRow(name, AnyCounter, i) { RowsByNumber(i); }
  }
}
