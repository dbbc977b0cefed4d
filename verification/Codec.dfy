/** Surface forms of a cookie's fields: decimal integers, hexadecimal bytes, '|'-separated text. */
module Codec {
  import opened Text
  import opened Wrappers
  import opened Pow

  // ----- decimal integers ------------------------------------------------------------

  predicate IsDigit(c: char) {
    '0' <= c <= '9'
  }

  function DigitOf(d: nat): (c: char)
    requires d < 10
    ensures IsDigit(c)
  {
    ('0' as int + d) as char
  }

  function DigitValue(c: char): (d: nat)
    requires IsDigit(c)
    ensures d < 10 && DigitOf(d) == c
  {
    c as int - '0' as int
  }

  /** What the printer emits for a non-negative integer. */
  function Decimal(n: nat): string {
    if n < 10 then [DigitOf(n)] else Decimal(n / 10) + [DigitOf(n % 10)]
  }

  function Integer(n: int): string {
    if n < 0 then ['-'] + Decimal(-n) else Decimal(n)
  }

  ghost predicate IsDecimal(s: string) {
    exists n: nat :: s == Decimal(n)
  }

  predicate Digits(s: string) {
    forall i :: 0 <= i < |s| ==> IsDigit(s[i])
  }

  /** Digits without a leading zero. */
  predicate Strict(s: string) {
    s != [] && Digits(s) && (|s| > 1 ==> s[0] != '0')
  }

  function ValueOf(s: string): nat
    requires Digits(s)
  {
    if s == [] then 0 else 10 * ValueOf(s[..|s| - 1]) + DigitValue(s[|s| - 1])
  }

  function Pow10(k: nat): (p: nat)
    ensures p >= 1
  {
    if k == 0 then 1 else 10 * Pow10(k - 1)
  }

  lemma {:induction false} DecimalReads(n: nat)
    ensures Strict(Decimal(n)) && ValueOf(Decimal(n)) == n && (n > 0 ==> Decimal(n)[0] != '0')
  {
    var s := Decimal(n);
    if n >= 10 {
      DecimalReads(n / 10);
      assert s[..|s| - 1] == Decimal(n / 10) && s[0] == Decimal(n / 10)[0];
    } else {
      assert s[..0] == [];
    }
  }

  lemma {:induction false} StrictPrints(s: string)
    requires Strict(s)
    ensures Decimal(ValueOf(s)) == s && (s[0] != '0' ==> ValueOf(s) > 0)
  {
    var t := s[..|s| - 1];
    if t != [] {
      StrictPrints(t);
      assert s == t + [s[|s| - 1]];
    } else {
      assert ValueOf(t) == 0;
    }
  }

  /** The strict form is exactly what the printer can emit. */
  lemma StrictIsDecimal(s: string)
    ensures Strict(s) <==> IsDecimal(s)
  {
    if Strict(s) {
      StrictPrints(s);
    } else if n: nat :| s == Decimal(n) {
      DecimalReads(n);
    }
  }

  lemma {:induction false} DecimalLength(n: nat, k: nat)
    requires k >= 1 && n < Pow10(k)
    ensures |Decimal(n)| <= k
  {
    if n >= 10 {
      assert k > 1;
      DecimalLength(n / 10, k - 1);
    }
  }

  /** `bs_strict_int_form`. */
  method StrictIntForm(s: string, allowNegative: bool) returns (ok: bool)
    ensures ok <==> IsDecimal(s) || (allowNegative && s != [] && s[0] == '-' && IsDecimal(s[1..]))
  {
    StrictIsDecimal(s);
    if s == [] { return false; }
    var b := 0;
    if s[0] == '-' {
      StrictIsDecimal(s[1..]);
      if !allowNegative { return false; }
      b := 1;
      if |s| == 1 { return false; }
    }
    if !('0' <= s[b] <= '9') { return false; }
    if s[b] == '0' && b + 1 < |s| { return false; }
    var p := b + 1;
    while p < |s|
      invariant b < p <= |s| && Digits(s[b..p])
    {
      if !('0' <= s[p] <= '9') {
        assert s[b..][p - b] == s[p];
        return false;
      }
      assert s[b..p + 1] == s[b..p] + [s[p]];
      p := p + 1;
    }
    assert s[b..] == s[b..p];
    return true;
  }

  ghost predicate InRange(s: string, lo: nat, hi: nat) {
    exists n: nat :: lo <= n <= hi && s == Decimal(n)
  }

  /** The bounded integer parsers, on a field already in strict form: a cap on the length,
      then the value. A number too long for its range is refused by the cap. */
  method ReadInt(s: string, lo: nat, hi: nat, maxLen: nat) returns (r: Option<nat>)
    requires IsDecimal(s) && maxLen >= 1 && hi < Pow10(maxLen)
    ensures r.Some? <==> InRange(s, lo, hi)
    ensures r.Some? ==> lo <= r.value <= hi && s == Decimal(r.value)
  {
    StrictIsDecimal(s);
    StrictPrints(s);
    forall n: nat | s == Decimal(n) ensures n == ValueOf(s) { DecimalReads(n); }
    if |s| > maxLen {
      forall n: nat | s == Decimal(n) ensures n > hi {
        if n <= hi { DecimalLength(n, maxLen); }
      }
      return None;
    }
    var v := ValueOf(s);
    if v < lo || v > hi { return None; }
    return Some(v);
  }

  // ----- hexadecimal bytes --------------------------------------------------------------

  function HexChar(v: nat): (c: char)
    requires v < 16
    ensures HexValue(c) == v && LowerChar(c) == c
  {
    LowerChar(HexDigit(v))
  }

  function HexByte(x: byte): (s: string)
    ensures |s| == 2 && s[0] == HexChar(x / 16) && s[1] == HexChar(x % 16)
  {
    [HexChar(x / 16), HexChar(x % 16)]
  }

  /** Lowercase, two digits a byte, high nibble first. */
  function Hex(b: seq<byte>): (s: string)
    ensures |s| == 2 * |b|
  {
    if b == [] then [] else Hex(b[..|b| - 1]) + HexByte(b[|b| - 1])
  }

  lemma DigitsBySight(d: nat)
    requires d < 16
    ensures d < 10 ==> DigitOf(d) == "0123456789"[d]
    ensures HexChar(d) == "0123456789abcdef"[d]
  {}

  /** Hexadecimal text is made of digits, in lowercase. */
  lemma {:induction false} HexIsLower(b: seq<byte>)
    ensures Lower(Hex(b)) == Hex(b) && forall k :: 0 <= k < |Hex(b)| ==> HexValue(Hex(b)[k]) >= 0
  {
    if b != [] {
      HexIsLower(b[..|b| - 1]);
    }
  }

  /** `bs_to_hex`. */
  method ToHex(b: seq<byte>) returns (s: string)
    ensures s == Hex(b)
  {
    var out := new char[2 * |b|](_ => '0');
    for i := 0 to |b|
      invariant out[..2 * i] == Hex(b[..i])
    {
      assert b[..i] + [b[i]] == b[..i + 1];
      ghost var before := out[..2 * i];
      out[2 * i] := HexChar(b[i] / 16);
      out[2 * i + 1] := HexChar(b[i] % 16);
      assert out[..2 * i + 2] == before + HexByte(b[i]);
    }
    assert b[..|b|] == b;
    s := out[..];
  }

  lemma {:induction false} HexInjective(a: seq<byte>, b: seq<byte>)
    requires Hex(a) == Hex(b)
    ensures a == b
  {
    if a != [] {
      var n := |a| - 1;
      var p, q := Hex(a[..n]) + HexByte(a[n]), Hex(b[..n]) + HexByte(b[n]);
      assert p == q;
      assert p[..2 * n] == Hex(a[..n]) && q[..2 * n] == Hex(b[..n]);
      HexInjective(a[..n], b[..n]);
      assert a == a[..n] + [a[n]] && b == b[..n] + [b[n]];
    }
  }

  ghost predicate HexFor(s: string, b: seq<byte>) {
    Lower(s) == Hex(b)
  }

  /** `bs_from_hex` on a text of exactly `2 * n` characters: it succeeds exactly on a spelling,
      in either case, of `n` bytes, and gives those bytes. */
  method FromHex(s: string, n: nat) returns (r: Option<seq<byte>>)
    requires |s| == 2 * n
    ensures r.None? ==> forall b :: !HexFor(s, b)
    ensures r.Some? ==> |r.value| == n && HexFor(s, r.value)
  {
    var out: seq<byte> := [];
    for i := 0 to n
      invariant |out| == i && HexFor(s[..2 * i], out)
    {
      var hi, lo := HexValue(s[2 * i]), HexValue(s[2 * i + 1]);
      if hi < 0 || lo < 0 {
        forall b ensures !HexFor(s, b) { NotHex(s, b, if hi < 0 then 2 * i else 2 * i + 1); }
        return None;
      }
      HexForSnoc(s, i, out, hi, lo);
      out := out + [hi * 16 + lo];
    }
    assert s[..2 * n] == s;
    return Some(out);
  }

  lemma NotHex(s: string, b: seq<byte>, k: nat)
    requires k < |s| && HexValue(s[k]) < 0
    ensures !HexFor(s, b)
  {
    HexIsLower(b);
    assert Lower(s)[k] == LowerChar(s[k]);
  }

  lemma HexForSnoc(s: string, i: nat, out: seq<byte>, hi: int, lo: int)
    requires 2 * i + 1 < |s| && HexFor(s[..2 * i], out)
    requires 0 <= hi == HexValue(s[2 * i]) && 0 <= lo == HexValue(s[2 * i + 1])
    ensures HexFor(s[..2 * i + 2], out + [hi * 16 + lo])
  {
    var x: byte := hi * 16 + lo;
    var pair := [s[2 * i], s[2 * i + 1]];
    PairFor(s[2 * i], s[2 * i + 1], x);
    assert s[..2 * i + 2] == s[..2 * i] + pair;
  }

  lemma PairFor(c: char, d: char, x: byte)
    requires HexValue(c) >= 0 && HexValue(d) >= 0 && x == HexValue(c) * 16 + HexValue(d)
    ensures Lower([c, d]) == HexByte(x)
  {
    assert x / 16 == HexValue(c) && x % 16 == HexValue(d);
  }

  // ----- separated fields -----------------------------------------------------------------

  const BAR := '|'

  ghost predicate BarFree(s: string) {
    forall i :: 0 <= i < |s| ==> s[i] != BAR
  }

  /** At most `limit` fields; the last takes whatever is left. */
  function Split(s: string, limit: nat): (fs: seq<string>)
    requires limit >= 1
    ensures 1 <= |fs| <= limit
  {
    var i := IndexOf(s, BAR, 0);
    if limit == 1 || i == |s| then [s] else [s[..i]] + Split(s[i + 1..], limit - 1)
  }

  function Join(fs: seq<string>): string
    requires fs != []
  {
    if |fs| == 1 then fs[0] else fs[0] + [BAR] + Join(fs[1..])
  }

  lemma {:induction false} JoinSplit(s: string, limit: nat)
    requires limit >= 1
    ensures Join(Split(s, limit)) == s
  {
    var i := IndexOf(s, BAR, 0);
    if limit > 1 && i < |s| {
      JoinSplit(s[i + 1..], limit - 1);
      assert Split(s, limit)[1..] == Split(s[i + 1..], limit - 1);
      assert s == s[..i] + [BAR] + s[i + 1..];
    }
  }

  lemma {:induction false} SplitJoin(fs: seq<string>, limit: nat)
    requires 1 <= |fs| <= limit && forall k :: 0 <= k < |fs| ==> BarFree(fs[k])
    ensures Split(Join(fs), limit) == fs
  {
    var f, rest := fs[0], fs[1..];
    assert fs == [f] + rest;
    if rest == [] {
      FirstAt(f, BAR, 0, |f|);
    } else {
      assert forall k :: 0 <= k < |rest| ==> rest[k] == fs[k + 1];
      SplitJoin(rest, limit - 1);
      SplitFirst(f, Join(rest), limit);
      assert Join(fs) == f + [BAR] + Join(rest);
    }
  }

  lemma SplitFirst(f: string, rest: string, limit: nat)
    requires BarFree(f) && limit > 1
    ensures Split(f + [BAR] + rest, limit) == [f] + Split(rest, limit - 1)
  {
    var s, n := f + [BAR] + rest, |f|;
    assert s[n] == BAR && s[..n] == f && s[n + 1..] == rest;
    FirstAt(s, BAR, 0, n);
  }

  /** Joined fields without bars have one bar fewer than fields. */
  lemma {:induction false} BarsOfJoin(fs: seq<string>)
    requires fs != [] && forall k :: 0 <= k < |fs| ==> BarFree(fs[k])
    ensures multiset(Join(fs))[BAR] == |fs| - 1
  {
    if |fs| > 1 {
      BarsOfJoin(fs[1..]);
      assert multiset(Join(fs)) == multiset(fs[0]) + multiset([BAR]) + multiset(Join(fs[1..]));
    }
  }

  // ----- splitting in place -----------------------------------------------------------------

  /** The fields cut off so far, each ended by a NUL in the buffer before `cur`. */
  ghost predicate Cut(buf: seq<char>, starts: seq<nat>, done: seq<string>, cur: nat) {
    && |starts| == |done| + 1 && starts[|done|] == cur
    && forall k {:trigger done[k]} :: 0 <= k < |done| ==> Field(buf, starts[k], done[k], cur)
  }

  ghost predicate Field(buf: seq<char>, at: nat, f: string, cur: nat) {
    at + |f| < cur <= |buf| && HoldsString(buf[at..], f)
  }

  lemma FieldKept(buf: seq<char>, buf': seq<char>, at: nat, f: string, cur: nat, cur': nat)
    requires Field(buf, at, f, cur) && cur <= cur' <= |buf'| == |buf| && buf'[..cur] == buf[..cur]
    ensures Field(buf', at, f, cur')
  {
    assert forall k :: 0 <= k <= |f| ==> buf'[at..][k] == buf'[..cur][at + k] == buf[..cur][at + k] == buf[at..][k];
    assert buf'[at..][..|f|] == buf[at..][..|f|];
  }

  lemma SplitStep(s: string, cur: nat, p: nat, limit: nat)
    requires cur <= p < |s| && s[p] == BAR && BarFree(s[cur..p]) && limit > 1
    ensures Split(s[cur..], limit) == [s[cur..p]] + Split(s[p + 1..], limit - 1)
  {
    var t := s[cur..];
    assert forall k :: 0 <= k < p - cur ==> t[k] == s[cur..p][k];
    FirstAt(t, BAR, 0, p - cur);
    assert t[..p - cur] == s[cur..p] && t[p - cur + 1..] == s[p + 1..];
  }

  /** The splitter at `p`: `done` cut off, the current field from `cur` without a bar so far. */
  ghost predicate Splitting(buf: seq<char>, was: seq<char>, s: string, limit: nat, starts: seq<nat>, done: seq<string>,
                            cur: nat, p: nat) {
    && HoldsString(was, s) && Ahead(buf, was, cur) && Cut(buf, starts, done, cur)
    && |starts| <= limit && cur <= p <= |s| && BarFree(s[cur..p])
    && done + Split(s[cur..], limit - |done|) == Split(s, limit)
  }

  lemma OnBar(buf: seq<char>, was: seq<char>, s: string, limit: nat, starts: seq<nat>, done: seq<string>, cur: nat, p: nat)
    requires Splitting(buf, was, s, limit, starts, done, cur, p) && |starts| < limit && p < |s| && s[p] == BAR
    ensures p < |buf| && Splitting(buf[p := NUL], was, s, limit, starts + [p + 1], done + [s[cur..p]], p + 1, p + 1)
  {
    OneMore(s, limit, done, cur, p);
    assert (starts + [p + 1])[..|done| + 1] == starts;
    Advanced(buf, buf[p := NUL], was, s, starts + [p + 1], done, cur, p);
    assert s[p + 1..p + 1] == [];
  }

  lemma OneMore(s: string, limit: nat, done: seq<string>, cur: nat, p: nat)
    requires cur <= p < |s| && s[p] == BAR && BarFree(s[cur..p]) && |done| + 1 < limit
    ensures (done + [s[cur..p]]) + Split(s[p + 1..], limit - |done| - 1) == done + Split(s[cur..], limit - |done|)
  {
    SplitStep(s, cur, p, limit - |done|);
  }

  lemma SplitDone(buf: seq<char>, was: seq<char>, s: string, limit: nat, starts: seq<nat>, done: seq<string>, cur: nat, p: nat)
    requires Splitting(buf, was, s, limit, starts, done, cur, p) && (p == |s| || |starts| == limit)
    ensures Split(s, limit) == done + [s[cur..]]
  {
    if |starts| < limit {
      assert s[cur..p] == s[cur..];
      FirstAt(s[cur..], BAR, 0, |s[cur..]|);
    }
  }

  /** The splitter of the verify path: NULs are written over the bars, and the start of each
      field is recorded, until the array of `limit` fields is full or the string ends. */
  method SplitInPlace(buf: array<char>, ghost s: string, limit: nat) returns (starts: seq<nat>)
    requires HoldsString(buf[..], s) && limit >= 1
    modifies buf
    ensures |starts| == |Split(s, limit)|
    ensures forall k :: 0 <= k < |starts| ==> starts[k] <= buf.Length && HoldsString(buf[starts[k]..], Split(s, limit)[k])
  {
    starts := [0];
    var p := 0;
    ghost var done: seq<string>, cur: nat, was := [], 0, buf[..];
    assert s[0..] == s;
    while buf[p] != NUL && |starts| < limit
      invariant Splitting(buf[..], was, s, limit, starts, done, cur, p)
      decreases |s| - p
    {
      AheadHolds(buf[..], was, p, s);
      if buf[p] == BAR {
        OnBar(buf[..], was, s, limit, starts, done, cur, p);
        buf[p] := NUL;
        starts := starts + [p + 1];
        done, cur := done + [s[cur..p]], p + 1;
      }
      p := p + 1;
    }
    AheadHolds(buf[..], was, p, s);
    SplitDone(buf[..], was, s, limit, starts, done, cur, p);
    CutEnds(buf[..], was, s, starts, done, cur);
    forall k | 0 <= k < |starts| ensures HoldsString(buf[starts[k]..], Split(s, limit)[k]) {
      assert buf[starts[k]..] == buf[..][starts[k]..];
    }
  }

  lemma CutEnds(buf: seq<char>, was: seq<char>, s: string, starts: seq<nat>, done: seq<string>, cur: nat)
    requires HoldsString(was, s) && cur <= |s| && Ahead(buf, was, cur) && Cut(buf, starts, done, cur)
    ensures forall k :: 0 <= k < |starts| ==> starts[k] <= |buf| && HoldsString(buf[starts[k]..], (done + [s[cur..]])[k])
  {
    AheadHolds(buf, was, cur, s);
    forall k | 0 <= k < |starts| ensures starts[k] <= |buf| && HoldsString(buf[starts[k]..], (done + [s[cur..]])[k]) {
      if k < |done| { assert Field(buf, starts[k], done[k], cur); }
    }
  }

  lemma Advanced(before: seq<char>, now: seq<char>, was: seq<char>, s: string, starts: seq<nat>, done: seq<string>, cur: nat, p: nat)
    requires HoldsString(was, s) && cur <= p < |s| && Ahead(before, was, cur) && now == before[p := NUL]
    requires |starts| == |done| + 2 && starts[|done| + 1] == p + 1 && Cut(before, starts[..|done| + 1], done, cur)
    ensures Ahead(now, was, p + 1) && Cut(now, starts, done + [s[cur..p]], p + 1)
  {
    forall k | 0 <= k < |done| ensures Field(now, starts[k], done[k], p + 1) {
      assert now[..cur] == before[..cur];
      FieldKept(before, now, starts[k], done[k], cur, p + 1);
    }
  }

  /** The C string that starts at `at`. */
  method ReadString(buf: array<char>, at: nat, ghost s: string) returns (r: string)
    requires at <= buf.Length && HoldsString(buf[at..], s)
    ensures r == s
  {
    var n := at;
    while buf[n] != NUL
      invariant at <= n <= at + |s|
      decreases at + |s| - n
    {
      assert buf[n] == buf[at..][n - at];
      n := n + 1;
    }
    assert forall k :: 0 <= k < |s| ==> buf[at + k] == buf[at..][..|s|][k];
    assert buf[at + |s|] == buf[at..][|s|];
    r := buf[at..n];
    assert r == buf[at..][..|s|];
  }
}
