/** Byte strings: ASCII case folding, suffixes and substrings, C strings in buffers. */
module Text {

  /** `tolower` in the C locale: only A-Z fold. */
  function LowerChar(c: char): char {
    if 'A' <= c <= 'Z' then (c as int + 32) as char else c
  }

  function Lower(s: string): (t: string)
    ensures |t| == |s|
    ensures forall i :: 0 <= i < |s| ==> t[i] == LowerChar(s[i])
  {
    seq(|s|, i requires 0 <= i < |s| => LowerChar(s[i]))
  }

  predicate IsSuffix(p: string, w: string) {
    |p| <= |w| && w[|w| - |p|..] == p
  }

  predicate OccursAt(p: string, w: string, i: nat) {
    i + |p| <= |w| && w[i..i + |p|] == p
  }

  /** `strcasestr(w, p) != NULL`, on strings already folded. */
  predicate Occurs(p: string, w: string) {
    exists i: nat | i <= |w| :: OccursAt(p, w, i)
  }

  /** The characters agree but for the case of letters. */
  predicate SameLetters(a: string, b: string) {
    |a| == |b| && forall i :: 0 <= i < |a| ==> a[i] == b[i] || LetterPair(a[i], b[i]) || LetterPair(b[i], a[i])
  }

  predicate LetterPair(upper: char, lower: char) {
    'A' <= upper <= 'Z' && lower as int - upper as int == 'a' as int - 'A' as int
  }

  /** `strcasestr`: searching the folded texts finds a place exactly where the unfolded ones
      agree but for the case of letters. */
  lemma FoldedSearch(p: string, w: string, i: nat)
    requires i + |p| <= |w|
    ensures OccursAt(Lower(p), Lower(w), i) <==> SameLetters(p, w[i..i + |p|])
  {}

  /** An occurrence is a suffix of the prefix it ends in. */
  lemma OccursEnds(p: string, w: string, i: nat)
    requires OccursAt(p, w, i)
    ensures IsSuffix(p, w[..i + |p|])
  {
    assert w[..i + |p|][i..] == w[i..i + |p|];
  }

  lemma EndsOccurs(p: string, w: string, k: nat)
    requires k <= |w| && IsSuffix(p, w[..k])
    ensures OccursAt(p, w, k - |p|) && Occurs(p, w)
  {
    var i: nat := k - |p|;
    assert w[..k][i..] == w[i..k];
    assert OccursAt(p, w, i);
  }

  /** Two suffixes of one word: the shorter is a suffix of the longer. */
  lemma SuffixNest(a: string, b: string, w: string)
    requires IsSuffix(a, w) && IsSuffix(b, w) && |a| <= |b|
    ensures IsSuffix(a, b)
  {
    assert w[|w| - |a|..] == w[|w| - |b|..][|b| - |a|..];
  }

  /** A proper suffix survives dropping the first character. */
  lemma SuffixTail(a: string, w: string)
    requires w != []
    ensures IsSuffix(a, w[1..]) <==> IsSuffix(a, w) && a != w
  {
    if IsSuffix(a, w[1..]) {
      assert w[1..][|w| - 1 - |a|..] == w[|w| - |a|..];
    }
    if IsSuffix(a, w) && a != w {
      assert w[1..][|w| - 1 - |a|..] == w[|w| - |a|..];
    }
  }

  // ----- C strings -------------------------------------------------------

  const NUL: char := '\0'

  ghost predicate NulFree(s: string) {
    forall i :: 0 <= i < |s| ==> s[i] != NUL
  }

  /** A C string and its terminator at the start of a buffer. */
  ghost predicate HoldsString(buf: seq<char>, s: string) {
    |s| < |buf| && buf[..|s|] == s && buf[|s|] == NUL && NulFree(s)
  }

  /** Value of a hexadecimal digit, -1 otherwise. */
  function HexValue(c: char): (v: int)
    ensures -1 <= v < 16
  {
    if '0' <= c <= '9' then c as int - '0' as int
    else if 'a' <= c <= 'f' then c as int - 'a' as int + 10
    else if 'A' <= c <= 'F' then c as int - 'A' as int + 10
    else -1
  }

  /** The upper-case hexadecimal digit of a value. */
  function HexDigit(v: int): (c: char)
    requires 0 <= v < 16
    ensures HexValue(c) == v && ('0' <= c <= '9' || 'A' <= c <= 'F')
  {
    if v < 10 then ('0' as int + v) as char else ('A' as int + v - 10) as char
  }

  /** The digits by sight: lowercase, uppercase, and nothing else. */
  lemma HexDigits(c: char, v: nat)
    requires v < 16
    ensures HexValue(c) == v <==> c == "0123456789abcdef"[v] || c == "0123456789ABCDEF"[v]
    ensures HexDigit(v) == "0123456789ABCDEF"[v]
  {}

  /** Index of the first `c` at or after `from`, or the length when there is none. */
  function IndexOf(s: string, c: char, from: nat): (i: nat)
    requires from <= |s|
    ensures from <= i <= |s| && (i < |s| ==> s[i] == c) && forall k :: from <= k < i ==> s[k] != c
    decreases |s| - from
  {
    if from == |s| || s[from] == c then from else IndexOf(s, c, from + 1)
  }

  lemma {:induction false} FirstAt(s: string, c: char, from: nat, i: nat)
    requires from <= i <= |s| && (forall k :: from <= k < i ==> s[k] != c) && (i < |s| ==> s[i] == c)
    ensures IndexOf(s, c, from) == i
    decreases i - from
  {
    if from < i { FirstAt(s, c, from + 1, i); }
  }

  /** Nothing at or past `r` has been overwritten. */
  ghost predicate Ahead(now: seq<char>, was: seq<char>, r: nat) {
    |now| == |was| && forall k :: r <= k < |now| ==> now[k] == was[k]
  }

  lemma AheadHolds(now: seq<char>, was: seq<char>, r: nat, s: string)
    requires Ahead(now, was, r) && HoldsString(was, s) && r <= |s|
    ensures HoldsString(now[r..], s[r..]) && now[r] == if r < |s| then s[r] else NUL
  {
    assert now[r..] == was[r..];
    assert was[..|s|] == s;
  }
}
