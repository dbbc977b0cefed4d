/** The proof-of-work check: leading hexadecimal zeros as a numeric bound. */
module Pow {

  type byte = b: int | 0 <= b < 256

  const SALT_BYTES := 16
  const NONCE_BYTES := 8
  const COUNTER_MAX := 64
  const DIGEST_LEN := 32

  type Digest = s: seq<byte> | |s| == DIGEST_LEN witness seq(32, _ => 0)

  function Pow16(n: nat): (p: nat)
    ensures p >= 1
  {
    if n == 0 then 1 else 16 * Pow16(n - 1)
  }

  /** A byte string read as a big-endian integer. */
  function Value(s: seq<byte>): (v: nat)
    ensures v < Pow16(2 * |s|)
  {
    if s == [] then 0
    else
      Unroll(|s| - 1);
      256 * Value(s[..|s| - 1]) + s[|s| - 1]
  }

  /** One more byte is two more hexadecimal digits. */
  lemma Unroll(n: nat)
    ensures Pow16(2 * (n + 1)) == 256 * Pow16(2 * n)
    ensures Pow16(2 * n + 1) == 16 * Pow16(2 * n)
  {
    assert Pow16(2 * n + 2) == 16 * Pow16(2 * n + 1);
  }

  lemma {:induction false} Pow16Monotone(m: nat, n: nat)
    requires m <= n
    ensures Pow16(m) <= Pow16(n)
  {
    if m < n { Pow16Monotone(m, n - 1); }
  }

  ghost predicate ZeroUpTo(s: seq<byte>, k: nat)
    requires k <= |s|
  {
    forall i :: 0 <= i < k ==> s[i] == 0
  }

  /** The first `k` bytes are zero exactly when the value fits in the remaining bytes. */
  lemma {:induction false} ZeroBytes(s: seq<byte>, k: nat)
    requires k <= |s|
    ensures ZeroUpTo(s, k) <==> Value(s) < Pow16(2 * (|s| - k))
  {
    if s != [] {
      var n := |s| - 1;
      var t := s[..n];
      if k <= n {
        ZeroBytes(t, k);
        Unroll(n - k);
        assert ZeroUpTo(s, k) <==> ZeroUpTo(t, k);
      } else {
        ZeroBytes(t, n);
        assert ZeroUpTo(s, k) <==> ZeroUpTo(t, n) && s[n] == 0;
      }
    }
  }

  /** A further zero high nibble is one more hexadecimal digit. */
  lemma {:induction false} ZeroNibbles(s: seq<byte>, k: nat)
    requires k < |s|
    ensures ZeroUpTo(s, k) && s[k] / 16 == 0 <==> Value(s) < Pow16(2 * (|s| - k) - 1)
  {
    var n := |s| - 1;
    var t := s[..n];
    assert k <= n ==> (ZeroUpTo(s, k) <==> ZeroUpTo(t, k));
    if k == n {
      ZeroBytes(t, n);
      Unroll(0);
    } else {
      ZeroNibbles(t, k);
      Unroll(n - k);
      Unroll(n - k - 1);
      assert 2 * (|s| - k) - 1 == 2 * (n - k) + 1;
    }
  }

  /** A digest passes difficulty `d` when its value is below 16^(64-d). */
  ghost predicate Passes(digest: Digest, d: nat)
    requires d <= 2 * DIGEST_LEN
  {
    Value(digest) < Pow16(2 * DIGEST_LEN - d)
  }

  /** The nibble test of the verifier. */
  method LeadingZeros(digest: Digest, difficulty: nat) returns (ok: bool)
    requires difficulty <= 2 * DIGEST_LEN
    ensures ok <==> Passes(digest, difficulty)
  {
    var fullBytes, needHalf := difficulty / 2, difficulty % 2;
    ZeroBytes(digest, fullBytes);
    if fullBytes < DIGEST_LEN { ZeroNibbles(digest, fullBytes); }
    Pow16Monotone(2 * DIGEST_LEN - difficulty, 2 * (DIGEST_LEN - fullBytes));
    for i := 0 to fullBytes
      invariant ZeroUpTo(digest, i)
    {
      if digest[i] != 0 {
        assert !ZeroUpTo(digest, fullBytes);
        return false;
      }
    }
    if needHalf == 1 && digest[fullBytes] / 16 != 0 { return false; }
    return true;
  }

  datatype Verdict = Accepted | EmptyCounter | CounterTooLong | InsufficientZeros

  /** `sha256zeros` redemption: hash salt, nonce and counter, then test the digest. */
  method VerifySha256Zeros(salt: seq<byte>, nonce: seq<byte>, difficulty: nat, counter: seq<byte>,
                           sha256: seq<byte> -> Digest) returns (v: Verdict)
    requires |salt| == SALT_BYTES && |nonce| == NONCE_BYTES && difficulty <= 2 * DIGEST_LEN
    ensures v == Accepted <==>
      0 < |counter| <= COUNTER_MAX && Passes(sha256(salt + nonce + counter), difficulty)
    ensures v == EmptyCounter <==> counter == []
    ensures v == CounterTooLong <==> |counter| > COUNTER_MAX
  {
    if counter == [] { return EmptyCounter; }
    var buf := salt + nonce;
    if |counter| > SALT_BYTES + NONCE_BYTES + COUNTER_MAX - |buf| { return CounterTooLong; }
    buf := buf + counter;
    var ok := LeadingZeros(sha256(buf), difficulty);
    v := if ok then Accepted else InsufficientZeros;
  }

  /** A digest that meets a difficulty meets every lower one. */
  lemma PassesDownward(digest: Digest, d: nat, e: nat)
    requires e <= d <= 2 * DIGEST_LEN && Passes(digest, d)
    ensures Passes(digest, e)
  {
    Pow16Monotone(2 * DIGEST_LEN - d, 2 * DIGEST_LEN - e);
  }

  // ----- how many digests pass ------------------------------------------

  /** The `len`-byte big-endian form of `n`. */
  function Bytes(n: nat, len: nat): (s: seq<byte>)
    requires n < Pow16(2 * len)
    ensures |s| == len
  {
    if len == 0 then []
    else
      Unroll(len - 1);
      Bytes(n / 256, len - 1) + [n % 256]
  }

  lemma {:induction false} ValueOfBytes(n: nat, len: nat)
    requires n < Pow16(2 * len)
    ensures Value(Bytes(n, len)) == n
  {
    if len > 0 {
      Unroll(len - 1);
      ValueOfBytes(n / 256, len - 1);
      assert Bytes(n, len)[..len - 1] == Bytes(n / 256, len - 1);
    }
  }

  lemma {:induction false} ValueInjective(s: seq<byte>, t: seq<byte>)
    requires |s| == |t| && Value(s) == Value(t)
    ensures s == t
  {
    if s != [] {
      var n := |s| - 1;
      ValueInjective(s[..n], t[..n]);
      assert s == s[..n] + [s[n]] && t == t[..n] + [t[n]];
    }
  }

  /** The digests of value below `n`. */
  ghost function Below(n: nat): (p: set<Digest>)
    requires n <= Pow16(2 * DIGEST_LEN)
    ensures |p| == n && forall s: Digest :: s in p <==> Value(s) < n
  {
    if n == 0 then {}
    else
      var s: Digest := Bytes(n - 1, DIGEST_LEN);
      ValueOfBytes(n - 1, DIGEST_LEN);
      var p := Below(n - 1);
      assert forall t: Digest :: Value(t) == n - 1 ==> t == s by {
        forall t: Digest | Value(t) == n - 1 ensures t == s { ValueInjective(t, s); }
      }
      p + {s}
  }

  /** Exactly 16^(64-d) of the 2^256 digests pass difficulty `d`: one in 2^(4d). */
  lemma PassCount(d: nat) returns (passing: set<Digest>)
    requires d <= 2 * DIGEST_LEN
    ensures forall s: Digest :: s in passing <==> Passes(s, d)
    ensures |passing| == Pow16(2 * DIGEST_LEN - d)
    ensures |passing| * Pow16(d) == Pow16(2 * DIGEST_LEN)
  {
    Pow16Monotone(2 * DIGEST_LEN - d, 2 * DIGEST_LEN);
    passing := Below(Pow16(2 * DIGEST_LEN - d));
    Pow16Adds(2 * DIGEST_LEN - d, d);
  }

  lemma {:induction false} Pow16Adds(m: nat, n: nat)
    ensures Pow16(m) * Pow16(n) == Pow16(m + n)
  {
    if n > 0 { Pow16Adds(m, n - 1); }
  }
}
