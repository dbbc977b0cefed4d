/**
 Form bodies: the in-place decoder of `application/x-www-form-urlencoded` values, the
 field lookup built on it, and the serializer of section 5.2 of the WHATWG URL Standard
 that both must undo.
 */
module FormBody {
  import opened Text
  import opened Wrappers

  /** A percent escape the decoder honours: two hexadecimal digits, not both zero. */
  predicate Escape(s: string) {
    |s| >= 3 && s[0] == '%' && HexValue(s[1]) >= 0 && HexValue(s[2]) >= 0 && !(HexValue(s[1]) == 0 && HexValue(s[2]) == 0)
  }

  /** The character a decoder emits next, and how much input it consumes. */
  function NextChar(s: string): (r: (char, nat))
    requires s != []
    ensures 1 <= r.1 <= |s|
  {
    if s[0] == '+' then (' ', 1)
    else if Escape(s) then ((HexValue(s[1]) * 16 + HexValue(s[2])) as char, 3)
    else (s[0], 1)
  }

  function Decode(s: string): (d: string)
    ensures |d| <= |s|
  {
    if s == [] then [] else [NextChar(s).0] + Decode(s[NextChar(s).1..])
  }

  predicate IsHex(c: char) {
    '0' <= c <= '9' || 'a' <= c <= 'f' || 'A' <= c <= 'F'
  }

  /** A percent sign with two hexadecimal digits, other than %00. */
  predicate EscapeAt(s: string, i: nat) {
    i + 2 < |s| && s[i] == '%' && IsHex(s[i + 1]) && IsHex(s[i + 2]) && !(s[i + 1] == '0' && s[i + 2] == '0')
  }

  /** One unit, by sight: a plus is a space, an escape its byte; anything else - a percent sign
      at the end, before a character that is no digit, or before 00 - stands for itself. */
  lemma {:induction false} UnitBySight(s: string, hi: nat, lo: nat)
    requires s != [] && hi < 16 && lo < 16
    ensures s[0] == '+' ==> NextChar(s) == (' ', 1)
    ensures s[0] != '+' && !EscapeAt(s, 0) ==> NextChar(s) == (s[0], 1)
    ensures EscapeAt(s, 0) && LowerChar(s[1]) == "0123456789abcdef"[hi] && LowerChar(s[2]) == "0123456789abcdef"[lo] ==>
      NextChar(s) == ((16 * hi + lo) as char, 3)
  {
    if EscapeAt(s, 0) {
      HexDigits(LowerChar(s[1]), hi);
      HexDigits(LowerChar(s[2]), lo);
    }
  }

  /** No character of `s` is one the decoder rewrites. */
  predicate Unescaped(s: string) {
    forall i :: 0 <= i < |s| ==> s[i] != '+' && !EscapeAt(s, i)
  }

  lemma UnescapedTail(s: string)
    requires s != []
    ensures Unescaped(s) <==> s[0] != '+' && !EscapeAt(s, 0) && Unescaped(s[1..])
  {
    var rest := s[1..];
    forall i | 0 <= i < |rest| ensures rest[i] == s[i + 1] && (EscapeAt(rest, i) <==> EscapeAt(s, i + 1)) {}
    if s[0] != '+' && !EscapeAt(s, 0) && Unescaped(rest) {
      forall i | 0 < i < |s| ensures s[i] != '+' && !EscapeAt(s, i) { assert rest[i - 1] == s[i]; }
    }
  }

  /** The decoder leaves a string alone exactly when it holds no plus and no such escape. */
  lemma {:induction false} DecodeUnchanged(s: string)
    ensures Decode(s) == s <==> Unescaped(s)
  {
    if s != [] {
      var rest := s[1..];
      UnitBySight(s, 0, 0);
      DecodeUnchanged(rest);
      UnescapedTail(s);
      if s[0] == '+' {
        assert Decode(s)[0] == ' ';
      } else if EscapeAt(s, 0) {
        assert |Decode(s)| <= 1 + |s| - 3;
      } else {
        assert Decode(s) == [s[0]] + Decode(rest) && s == [s[0]] + rest;
        if Decode(s) == s { assert Decode(s)[1..] == s[1..]; }
      }
    }
  }

  lemma {:induction false} DecodeNulFree(s: string)
    requires NulFree(s)
    ensures NulFree(Decode(s))
  {
    if s != [] { DecodeNulFree(s[NextChar(s).1..]); }
  }

  /** The branches of the decoder at one read position. */
  method ReadNext(buf: array<char>, r: nat, ghost rest: string) returns (c: char, step: nat)
    requires rest != [] && r <= buf.Length && HoldsString(buf[r..], rest)
    ensures (c, step) == NextChar(rest)
  {
    assert forall k :: 0 <= k <= |rest| ==> buf[r + k] == if k < |rest| then rest[k] else NUL;
    c, step := buf[r], 1;
    if c == '+' { return ' ', 1; }
    if c == '%' && buf[r + 1] != NUL && buf[r + 2] != NUL {
      var hi, lo := HexValue(buf[r + 1]), HexValue(buf[r + 2]);
      if hi >= 0 && lo >= 0 && !(hi == 0 && lo == 0) {
        return (hi * 16 + lo) as char, 3;
      }
    }
  }

  /** The decoder between two units: `out` written, the input from `r` on not yet touched. */
  ghost predicate Decoding(now: seq<char>, was: seq<char>, s: string, r: nat, out: string) {
    && HoldsString(was, s) && |out| <= r <= |s| && Ahead(now, was, r)
    && now[..|out|] == out && out + Decode(s[r..]) == Decode(s)
  }

  lemma DecodeStepKeeps(now: seq<char>, was: seq<char>, s: string, r: nat, out: string, c: char, step: nat)
    requires Decoding(now, was, s, r, out) && r < |s| && (c, step) == NextChar(s[r..])
    ensures |out| < |now| && Decoding(now[|out| := c], was, s, r + step, out + [c])
  {
    DecodeNext(s, r, out, Decode(s), c, step);
  }

  lemma DecodeEnds(now: seq<char>, was: seq<char>, s: string, r: nat, out: string)
    requires Decoding(now, was, s, r, out) && r == |s|
    ensures out == Decode(s) && |out| < |now| && HoldsString(now[|out| := NUL], Decode(s))
  {
    assert s[r..] == [];
    DecodeNulFree(s);
    assert now[|out| := NUL][..|out|] == out;
  }

  /** `bs_urldecode_inplace`: one buffer, a read index and a write index that never passes it. */
  method UrlDecodeInPlace(buf: array<char>, ghost s: string) returns (len: nat)
    requires HoldsString(buf[..], s)
    modifies buf
    ensures HoldsString(buf[..], Decode(s)) && len == |Decode(s)| <= |s|
    ensures forall k :: |s| < k < buf.Length ==> buf[k] == old(buf[k])
  {
    var w, r := 0, 0;
    ghost var out: string, was := [], buf[..];
    assert s[0..] == s;
    while buf[r] != NUL
      invariant w == |out| && Decoding(buf[..], was, s, r, out)
      decreases |s| - r
    {
      AheadHolds(buf[..], was, r, s);
      assert buf[r..] == buf[..][r..];
      var c, step := ReadNext(buf, r, s[r..]);
      DecodeStepKeeps(buf[..], was, s, r, out, c, step);
      buf[w] := c;
      w, r, out := w + 1, r + step, out + [c];
    }
    AheadHolds(buf[..], was, r, s);
    DecodeEnds(buf[..], was, s, r, out);
    buf[w] := NUL;
    len := w;
  }

  lemma DecodeNext(s: string, r: nat, out: string, total: string, c: char, step: nat)
    requires r < |s| && out + Decode(s[r..]) == total && (c, step) == NextChar(s[r..])
    ensures (out + [c]) + Decode(s[r + step..]) == total
  {
    var rest := s[r..];
    assert rest[step..] == s[r + step..];
    var d := Decode(rest[step..]);
    assert Decode(rest) == [c] + d;
    assert out + ([c] + d) == (out + [c]) + d;
  }

  // ----- serializer ------------------------------------------------------

  predicate Unreserved(c: char) {
    'a' <= c <= 'z' || 'A' <= c <= 'Z' || '0' <= c <= '9' || c == '*' || c == '-' || c == '.' || c == '_'
  }

  /** Bytes a form value can carry through a C string. */
  predicate FormByte(c: char) {
    0 < c as int < 256
  }

  function EncodeChar(c: char): (e: string)
    requires FormByte(c)
    ensures e != []
  {
    if c == ' ' then ['+']
    else if Unreserved(c) then [c]
    else ['%', HexDigit(c as int / 16), HexDigit(c as int % 16)]
  }

  ghost predicate FormBytes(s: string) {
    forall i :: 0 <= i < |s| ==> FormByte(s[i])
  }

  ghost predicate AllUnreserved(s: string) {
    forall i :: 0 <= i < |s| ==> Unreserved(s[i])
  }

  function Encode(s: string): string
    requires FormBytes(s)
  {
    if s == [] then [] else EncodeChar(s[0]) + Encode(s[1..])
  }

  /** No delimiter or terminator survives encoding. */
  ghost predicate DelimiterFree(e: string) {
    forall i :: 0 <= i < |e| ==> e[i] != '&' && e[i] != '=' && e[i] != NUL
  }

  lemma EncodeCharFree(c: char)
    requires FormByte(c)
    ensures DelimiterFree(EncodeChar(c))
  {}

  lemma {:induction false} EncodeIsFree(s: string)
    requires FormBytes(s)
    ensures DelimiterFree(Encode(s))
  {
    if s != [] {
      EncodeCharFree(s[0]);
      EncodeIsFree(s[1..]);
    }
  }

  lemma DecodeStep(c: char, rest: string)
    requires FormByte(c)
    ensures Decode(EncodeChar(c) + rest) == [c] + Decode(rest)
  {
    var t := EncodeChar(c) + rest;
    if c == ' ' || Unreserved(c) {
      assert t[1..] == rest;
    } else {
      assert HexValue(t[1]) == c as int / 16 && HexValue(t[2]) == c as int % 16;
      assert Escape(t) && t[3..] == rest;
    }
  }

  /** Decoding undoes encoding, on every NUL-free byte string. */
  lemma {:induction false} DecodeEncode(s: string)
    requires FormBytes(s)
    ensures Decode(Encode(s)) == s
  {
    if s != [] {
      DecodeStep(s[0], Encode(s[1..]));
      DecodeEncode(s[1..]);
    }
  }

  /** Only an unreserved name encodes to itself, and two names never encode alike. */
  lemma {:induction false} EncodedKeyIs(name: string, key: string)
    requires FormBytes(name) && AllUnreserved(key)
    ensures Encode(name) == key <==> name == key
  {
    if name == key {
      EncodeUnreserved(name);
    } else if Encode(name) == key {
      DecodeEncode(name);
      DecodeUnreserved(key);
    }
  }

  lemma {:induction false} EncodeUnreserved(s: string)
    requires FormBytes(s) && AllUnreserved(s)
    ensures Encode(s) == s
  {
    if s != [] { EncodeUnreserved(s[1..]); }
  }

  lemma {:induction false} DecodeUnreserved(s: string)
    requires AllUnreserved(s)
    ensures Decode(s) == s
  {
    if s != [] { DecodeUnreserved(s[1..]); }
  }

  // ----- field lookup ----------------------------------------------------

  /** The raw value of the first field named `key` at or after `cur`. A segment without
      '=' names nothing. */
  function RawField(body: string, key: string, cur: nat): Option<string>
    requires cur <= |body|
    decreases |body| - cur
  {
    if cur == |body| then None
    else
      var amp := IndexOf(body, '&', cur);
      var eq := IndexOf(body, '=', cur);
      if eq < amp && body[cur..eq] == key then Some(body[eq + 1..amp])
      else if amp == |body| then None
      else RawField(body, key, amp + 1)
  }

  /** A segment of the body starts here: at its start or after a `&`. It ends before the next. */
  predicate Starts(body: string, a: nat) {
    a <= |body| && (a == 0 || body[a - 1] == '&')
  }

  /** The segment has a `=`, and what stands before the first one is the key. */
  predicate KeyAt(body: string, a: nat, key: string)
    requires a <= |body|
  {
    var e := a + |key|;
    e < |body| && body[a..e] == key && body[e] == '=' && forall k :: a <= k < e ==> body[k] != '&' && body[k] != '='
  }

  /** The rest of the segment after the key and its `=`. */
  function ValueAt(body: string, a: nat, key: string): string
    requires a <= |body| && KeyAt(body, a, key)
  {
    body[a + |key| + 1..IndexOf(body, '&', a + |key| + 1)]
  }

  lemma KeyHere(body: string, key: string, cur: nat)
    requires Starts(body, cur) && cur < |body|
    ensures var amp, eq := IndexOf(body, '&', cur), IndexOf(body, '=', cur);
      && (KeyAt(body, cur, key) <==> eq < amp && body[cur..eq] == key)
      && (KeyAt(body, cur, key) ==> ValueAt(body, cur, key) == body[eq + 1..amp])
  {
    var amp, eq := IndexOf(body, '&', cur), IndexOf(body, '=', cur);
    if KeyAt(body, cur, key) { FirstAt(body, '=', cur, cur + |key|); }
    if eq < amp && body[cur..eq] == key { FirstAt(body, '&', eq + 1, amp); }
  }

  /** No segment that starts in `from..to` has the key for its name. */
  predicate NoKey(body: string, key: string, from: nat, to: nat)
    requires to <= |body| + 1
  {
    forall a {:trigger Starts(body, a)} :: from <= a < to && Starts(body, a) ==> !KeyAt(body, a, key)
  }

  /** The first segment at or after `cur` with the key for its name starts at `a`. */
  predicate FirstKey(body: string, key: string, cur: nat, a: nat) {
    cur <= a <= |body| && Starts(body, a) && KeyAt(body, a, key) && NoKey(body, key, cur, a)
  }

  /** Between a segment without the key and the next `&` nothing starts. */
  lemma NoKeyStep(body: string, key: string, cur: nat, to: nat)
    requires Starts(body, cur) && cur < |body| && !KeyAt(body, cur, key) && to <= |body| + 1
    requires var amp := IndexOf(body, '&', cur); amp < |body| ==> NoKey(body, key, amp + 1, to)
    ensures NoKey(body, key, cur, to)
  {
    var amp := IndexOf(body, '&', cur);
    forall a | cur <= a < to && Starts(body, a) ensures !KeyAt(body, a, key) {
      if a > cur { assert body[a - 1] == '&' && a - 1 >= amp; }
    }
  }

  /** `raw` is the value of the first segment at or after `cur` that has the key for its name;
      without one it is None. */
  ghost predicate FirstFound(body: string, key: string, cur: nat, raw: Option<string>) {
    match raw
    case None => NoKey(body, key, cur, |body| + 1)
    case Some(value) =>
      exists a {:trigger FirstKey(body, key, cur, a)} :: FirstKey(body, key, cur, a) && value == ValueAt(body, a, key)
  }

  /** A segment without the key is passed over. */
  lemma FoundLater(body: string, key: string, cur: nat, raw: Option<string>)
    requires Starts(body, cur) && cur < |body| && !KeyAt(body, cur, key)
    requires var amp := IndexOf(body, '&', cur); amp < |body| && FirstFound(body, key, amp + 1, raw)
    ensures FirstFound(body, key, cur, raw)
  {
    var next := IndexOf(body, '&', cur) + 1;
    match raw
    case None => NoKeyStep(body, key, cur, |body| + 1);
    case Some(value) =>
      var a :| FirstKey(body, key, next, a) && value == ValueAt(body, a, key);
      NoKeyStep(body, key, cur, a);
      assert FirstKey(body, key, cur, a);
  }

  /** A lookup finds the first segment whose name is the key, and nothing exactly when there is
      none, on any body at all. */
  lemma {:induction false} FirstField(body: string, key: string, cur: nat)
    requires Starts(body, cur)
    ensures FirstFound(body, key, cur, RawField(body, key, cur))
    decreases |body| - cur
  {
    if cur < |body| {
      var amp := IndexOf(body, '&', cur);
      KeyHere(body, key, cur);
      if KeyAt(body, cur, key) {
        assert FirstKey(body, key, cur, cur);
      } else if amp == |body| {
        NoKeyStep(body, key, cur, |body| + 1);
      } else {
        FirstField(body, key, amp + 1);
        FoundLater(body, key, cur, RawField(body, key, amp + 1));
      }
    }
  }

  function Lookup(body: string, key: string): Option<string> {
    match RawField(body, key, 0)
    case Some(raw) => Some(Decode(raw))
    case None => None
  }

  /** Copies a value and decodes the copy. */
  method DecodeCopy(val: string) returns (d: string)
    requires NulFree(val)
    ensures d == Decode(val)
  {
    var dup := new char[|val| + 1](i requires 0 <= i <= |val| => if i < |val| then val[i] else NUL);
    assert dup[..][..|val|] == val;
    var len := UrlDecodeInPlace(dup, val);
    d := dup[..len];
    assert d == dup[..][..len];
  }

  /** One segment of the body: its raw value if it is named `key`, else where to go on. */
  method FormField(body: string, key: string, cur: nat) returns (raw: Option<string>, next: nat)
    requires cur < |body|
    ensures raw.Some? ==> RawField(body, key, cur) == raw
    ensures raw.None? ==> cur < next <= |body| && RawField(body, key, cur) == RawField(body, key, next)
  {
    var eq, amp := IndexOf(body, '=', cur), IndexOf(body, '&', cur);
    next := if amp == |body| then |body| else amp + 1;
    if eq == |body| || (amp < |body| && eq > amp) {
      return None, next;
    }
    assert eq < amp;
    if body[cur..eq] == key {
      return Some(body[eq + 1..amp]), next;
    }
    return None, next;
  }

  lemma {:induction false} RawNulFree(body: string, key: string, cur: nat)
    requires NulFree(body) && cur <= |body|
    ensures RawField(body, key, cur).Some? ==> NulFree(RawField(body, key, cur).value)
    decreases |body| - cur
  {
    if cur < |body| {
      var amp := IndexOf(body, '&', cur);
      if amp < |body| { RawNulFree(body, key, amp + 1); }
    }
  }

  /** `bs_form_get`: scan the body for `key` and decode a private copy of the value. */
  method FormGet(body: string, key: string) returns (value: Option<string>)
    requires NulFree(body)
    ensures value == Lookup(body, key)
  {
    var cur := 0;
    while cur < |body|
      invariant cur <= |body| && RawField(body, key, 0) == RawField(body, key, cur)
    {
      var raw;
      raw, cur := FormField(body, key, cur);
      if raw.Some? {
        RawNulFree(body, key, 0);
        var d := DecodeCopy(raw.value);
        return Some(d);
      }
    }
    return None;
  }

  // ----- the round trip --------------------------------------------------

  datatype Pair = Pair(name: string, value: string)

  ghost predicate FormPairs(pairs: seq<Pair>) {
    forall i :: 0 <= i < |pairs| ==> FormBytes(pairs[i].name) && FormBytes(pairs[i].value)
  }

  function Segment(p: Pair): string
    requires FormBytes(p.name) && FormBytes(p.value)
  {
    Encode(p.name) + ['='] + Encode(p.value)
  }

  /** The urlencoded serializer: `name=value` joined by `&`. */
  function Serialize(pairs: seq<Pair>): string
    requires FormPairs(pairs)
  {
    if pairs == [] then []
    else
      Segment(pairs[0]) + if |pairs| == 1 then [] else ['&'] + Serialize(pairs[1..])
  }

  function FirstValue(pairs: seq<Pair>, key: string): Option<string> {
    if pairs == [] then None
    else if pairs[0].name == key then Some(pairs[0].value)
    else FirstValue(pairs[1..], key)
  }

  function FirstEncoded(pairs: seq<Pair>, key: string): Option<string>
    requires FormPairs(pairs)
  {
    if pairs == [] then None
    else if pairs[0].name == key then Some(Encode(pairs[0].value))
    else FirstEncoded(pairs[1..], key)
  }

  lemma {:induction false} DecodeFirst(pairs: seq<Pair>, key: string)
    requires FormPairs(pairs)
    ensures FirstEncoded(pairs, key).None? <==> FirstValue(pairs, key).None?
    ensures FirstEncoded(pairs, key).Some? ==> FirstValue(pairs, key) == Some(Decode(FirstEncoded(pairs, key).value))
  {
    if pairs != [] {
      if pairs[0].name == key { DecodeEncode(pairs[0].value); } else { DecodeFirst(pairs[1..], key); }
    }
  }

  /** The delimiters of the first serialized pair, found where it starts. */
  lemma PairAt(body: string, cur: nat, n: string, v: string)
    requires cur <= |body| && |n| + 1 + |v| <= |body| - cur && body[cur..cur + |n| + 1 + |v|] == n + ['='] + v
    requires DelimiterFree(n) && DelimiterFree(v)
    requires cur + |n| + 1 + |v| < |body| ==> body[cur + |n| + 1 + |v|] == '&'
    ensures IndexOf(body, '=', cur) == cur + |n| && IndexOf(body, '&', cur) == cur + |n| + 1 + |v|
    ensures body[cur..cur + |n|] == n && body[cur + |n| + 1..cur + |n| + 1 + |v|] == v
  {
    var seg := n + ['='] + v;
    assert forall k :: cur <= k < cur + |seg| ==> body[k] == seg[k - cur];
    FirstAt(body, '=', cur, cur + |n|);
    FirstAt(body, '&', cur, cur + |seg|);
  }

  lemma CutSeq(body: string, cur: nat, head: string, rest: string)
    requires cur <= |body| && body[cur..] == head + rest
    ensures cur + |head| <= |body| && body[cur..cur + |head|] == head && body[cur + |head|..] == rest
  {
    var t := body[cur..];
    assert t[..|head|] == head && t[|head|..] == rest;
    assert body[cur..cur + |head|] == t[..|head|] && body[cur + |head|..] == t[|head|..];
  }

  /** The lookup on a segment whose delimiters are known. */
  lemma RawAt(body: string, key: string, cur: nat, eq: nat, amp: nat, next: nat)
    requires cur <= eq < amp <= |body| && IndexOf(body, '=', cur) == eq && IndexOf(body, '&', cur) == amp
    requires next == if amp == |body| then amp else amp + 1
    ensures RawField(body, key, cur) ==
      if body[cur..eq] == key then Some(body[eq + 1..amp]) else RawField(body, key, next)
  {}

  /** What the lookup does with a serialized pair. */
  lemma LookupFirst(body: string, key: string, cur: nat, p: Pair, end: nat, next: nat)
    requires FormBytes(p.name) && FormBytes(p.value) && AllUnreserved(key)
    requires cur <= |body| && end == cur + |Segment(p)| <= |body| && body[cur..end] == Segment(p)
    requires if end == |body| then next == end else body[end] == '&' && next == end + 1
    ensures RawField(body, key, cur) == if p.name == key then Some(Encode(p.value)) else RawField(body, key, next)
  {
    var n, v := Encode(p.name), Encode(p.value);
    EncodeIsFree(p.name);
    EncodeIsFree(p.value);
    PairAt(body, cur, n, v);
    RawAt(body, key, cur, cur + |n|, end, next);
    EncodedKeyIs(p.name, key);
  }

  /** Cutting the first pair, and its separator if more follow, off a serialized form. */
  lemma CutPair(body: string, cur: nat, pairs: seq<Pair>) returns (end: nat, next: nat)
    requires FormPairs(pairs) && pairs != [] && cur <= |body| && body[cur..] == Serialize(pairs)
    ensures end == cur + |Segment(pairs[0])| <= |body| && body[cur..end] == Segment(pairs[0])
    ensures next <= |body| && body[next..] == Serialize(pairs[1..])
    ensures if end == |body| then next == end else body[end] == '&' && next == end + 1
  {
    var seg := Segment(pairs[0]);
    end := cur + |seg|;
    if |pairs| == 1 {
      CutSeq(body, cur, seg, []);
      next := end;
    } else {
      next := CutSeparated(body, cur, seg, Serialize(pairs[1..]));
    }
  }

  lemma CutSeparated(body: string, cur: nat, seg: string, rest: string) returns (next: nat)
    requires cur <= |body| && body[cur..] == seg + (['&'] + rest)
    ensures var end := cur + |seg|;
      end < |body| && body[cur..end] == seg && body[end] == '&' && next == end + 1 && body[next..] == rest
  {
    var end := cur + |seg|;
    CutSeq(body, cur, seg, ['&'] + rest);
    CutSeq(body, end, ['&'], rest);
    next := end + 1;
    assert body[end..][0] == '&';
  }

  lemma {:induction false} LookupIn(body: string, cur: nat, pairs: seq<Pair>, key: string)
    requires FormPairs(pairs) && AllUnreserved(key)
    requires cur <= |body| && body[cur..] == Serialize(pairs)
    ensures RawField(body, key, cur) == FirstEncoded(pairs, key)
    decreases |pairs|
  {
    if pairs == [] {
      assert |body[cur..]| == 0;
    } else {
      var end, next := CutPair(body, cur, pairs);
      LookupFirst(body, key, cur, pairs[0], end, next);
      LookupIn(body, next, pairs[1..], key);
    }
  }

  /** Looking a key up in a serialized form gives the first value stored under it. */
  lemma {:induction false} LookupSerialize(pairs: seq<Pair>, key: string)
    requires FormPairs(pairs) && AllUnreserved(key)
    ensures Lookup(Serialize(pairs), key) == FirstValue(pairs, key)
  {
    assert Serialize(pairs)[0..] == Serialize(pairs);
    LookupIn(Serialize(pairs), 0, pairs, key);
    DecodeFirst(pairs, key);
  }
}
