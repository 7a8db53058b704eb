/** The C string functions that the HTTP code relies on, over a byte buffer and an index into it.
    A byte is a `char`; a C string is the part of the buffer from an index up to the first NUL. */
module CStrings {

  const NUL: char := '\0'
  const CR: char := '\r'
  const LF: char := '\n'

  const LONG_MAX: int := 0x7FFF_FFFF_FFFF_FFFF
  const LONG_MIN: int := -0x8000_0000_0000_0000

  /** Index of the NUL that ends the C string at `p` (the buffer's end if there is none). */
  function StrEnd(b: seq<char>, p: nat): (e: nat)
    requires p <= |b|
    ensures p <= e <= |b|
    ensures forall i :: p <= i < e ==> b[i] != NUL
    ensures e < |b| ==> b[e] == NUL
    decreases |b| - p
  {
    if p == |b| || b[p] == NUL then p else StrEnd(b, p + 1)
  }

  lemma StrEndIs(b: seq<char>, p: nat, e: nat)
    requires p <= e <= |b|
    requires forall i :: p <= i < e ==> b[i] != NUL
    requires e < |b| ==> b[e] == NUL
    ensures StrEnd(b, p) == e
  {
    var f := StrEnd(b, p);
    assert f < |b| ==> b[f] == NUL;
    assert e < |b| ==> b[e] == NUL;
  }

  function CStr(b: seq<char>, p: nat): (s: string)
    requires p <= |b|
    ensures |s| == StrEnd(b, p) - p
    ensures forall i :: 0 <= i < |s| ==> s[i] == b[p + i] && s[i] != NUL
  {
    b[p..StrEnd(b, p)]
  }

  predicate IsBlank(c: char) {
    c == ' ' || c == '\t'
  }

  /** `strpbrk(s, " \t")` as an offset; |s| stands for NULL. */
  function FirstBlank(s: string): (k: nat)
    ensures k <= |s|
  {
    if s == "" || IsBlank(s[0]) then 0 else 1 + FirstBlank(s[1..])
  }

  lemma {:induction false} FirstBlankMeaning(s: string, k: nat)
    requires k <= |s|
    ensures FirstBlank(s) == k <==>
            (forall i :: 0 <= i < k ==> !IsBlank(s[i])) && (k < |s| ==> IsBlank(s[k]))
  {
    if s != "" && !IsBlank(s[0]) && k > 0 {
      FirstBlankMeaning(s[1..], k - 1);
      assert forall i :: 0 < i < k ==> s[i] == s[1..][i - 1];
      assert forall i :: 0 <= i < k - 1 ==> s[1..][i] == s[i + 1];
    }
  }

  /** `strspn(s, " \t")`. */
  function BlankSpan(s: string): (k: nat)
    ensures k <= |s|
  {
    if s == "" || !IsBlank(s[0]) then 0 else 1 + BlankSpan(s[1..])
  }

  lemma {:induction false} BlankSpanMeaning(s: string, k: nat)
    requires k <= |s|
    ensures BlankSpan(s) == k <==>
            (forall i :: 0 <= i < k ==> IsBlank(s[i])) && (k < |s| ==> !IsBlank(s[k]))
  {
    if s != "" && IsBlank(s[0]) && k > 0 {
      BlankSpanMeaning(s[1..], k - 1);
      assert forall i :: 0 < i < k ==> s[i] == s[1..][i - 1];
      assert forall i :: 0 <= i < k - 1 ==> s[1..][i] == s[i + 1];
    }
  }

  /** `strchr(s, c)` as an offset; |s| stands for NULL. */
  function FirstOf(s: string, c: char): (k: nat)
    ensures k <= |s|
    ensures forall i :: 0 <= i < k ==> s[i] != c
    ensures k < |s| ==> s[k] == c
  {
    if s == "" || s[0] == c then 0 else 1 + FirstOf(s[1..], c)
  }

  function ToLower(c: char): char {
    if 'A' <= c <= 'Z' then c - 'A' + 'a' else c
  }

  /** `strcasecmp(a, b) == 0`. */
  predicate CaseEq(a: string, b: string) {
    |a| == |b| && forall i :: 0 <= i < |a| ==> ToLower(a[i]) == ToLower(b[i])
  }

  /** Two characters count as the same if they are, or if they are one letter in both cases. */
  lemma SameLetter(c: char, d: char)
    requires c as int < 128 && d as int < 128
    ensures CaseEq([c], [d]) <==>
            c == d || ('A' <= c <= 'Z' && d as int == c as int + 32) || ('A' <= d <= 'Z' && c as int == d as int + 32)
  {
    assert CaseEq([c], [d]) <==> ToLower(c) == ToLower(d) by {
      assert [c][0] == c && [d][0] == d;
    }
  }

  function Take(s: string, n: nat): string {
    if |s| <= n then s else s[..n]
  }

  /** `strncasecmp(a, b, n) == 0`: the comparison includes the terminating NULs. */
  predicate CaseEqN(a: string, b: string, n: nat) {
    CaseEq(Take(a, n), Take(b, n))
  }

  predicate IsSpace(c: char) {
    c == ' ' || '\t' <= c <= '\r'
  }

  function SpaceSpan(s: string): (k: nat)
    ensures k <= |s|
    ensures forall i :: 0 <= i < k ==> IsSpace(s[i])
    ensures k < |s| ==> !IsSpace(s[k])
  {
    if s == "" || !IsSpace(s[0]) then 0 else 1 + SpaceSpan(s[1..])
  }

  predicate IsDigit(c: char) {
    '0' <= c <= '9'
  }

  /** Value of the longest run of digits at the front of `s`, read after a prefix worth `acc`. */
  function DigitRun(s: string, acc: nat): nat {
    if s != "" && IsDigit(s[0]) then DigitRun(s[1..], 10 * acc + (s[0] - '0') as nat) else acc
  }

  function ClampLong(v: int): (r: int)
    ensures LONG_MIN <= r <= LONG_MAX
    ensures if v < LONG_MIN then r == LONG_MIN else if v > LONG_MAX then r == LONG_MAX else r == v
  {
    if v < LONG_MIN then LONG_MIN else if v > LONG_MAX then LONG_MAX else v
  }

  /** `atol(s)`: spaces, an optional sign, digits; out-of-range values saturate as in `strtol`. */
  function Atol(s: string): (r: int)
    ensures LONG_MIN <= r <= LONG_MAX
  {
    var t := s[SpaceSpan(s)..];
    if t != "" && t[0] == '-' then ClampLong(0 - DigitRun(t[1..], 0) as int)
    else if t != "" && t[0] == '+' then ClampLong(DigitRun(t[1..], 0))
    else ClampLong(DigitRun(t, 0))
  }

  /** `b` with the bytes of `s` stored from index `i` on. */
  function Overwrite(b: seq<char>, i: nat, s: string): (r: seq<char>)
    requires i + |s| <= |b|
    ensures |r| == |b|
    ensures forall k :: 0 <= k < |b| ==> r[k] == if i <= k < i + |s| then s[k - i] else b[k]
  {
    b[..i] + s + b[i + |s|..]
  }

  lemma OverwriteNext(b: seq<char>, i: nat, s: string, ch: char)
    requires i + |s| < |b|
    ensures Overwrite(b, i, s)[i + |s| := ch] == Overwrite(b, i, s + [ch])
  {
  }

  /** A C string that ends before index `k` depends only on the bytes before `k`. */
  lemma CStrLocal(b: seq<char>, b': seq<char>, p: nat, k: nat)
    requires p < k <= |b| == |b'|
    requires b[..k] == b'[..k]
    requires exists q :: p <= q < k && b[q] == NUL
    ensures CStr(b, p) == CStr(b', p)
    ensures p + |CStr(b, p)| < k
  {
    var q :| p <= q < k && b[q] == NUL;
    assert StrEnd(b, p) <= q;
    assert forall i :: 0 <= i < k ==> b[i] == b[..k][i] == b'[..k][i] == b'[i];
    assert StrEnd(b, p) == StrEnd(b', p);
  }

  /** Storing a NUL inside a C string cuts it in two: a front and a string that starts right after. */
  lemma CStrCut(b: seq<char>, p: nat, k: nat)
    requires p <= |b| && k < |CStr(b, p)|
    ensures CStr(b[p + k := NUL], p) == CStr(b, p)[..k]
    ensures CStr(b[p + k := NUL], p + k + 1) == CStr(b, p)[k + 1..]
  {
    var b' := b[p + k := NUL];
    StrEndIs(b', p, p + k);
    StrEndIs(b', p + k + 1, StrEnd(b, p));
  }

  /** A suffix of a C string is the C string at the suffix's index. */
  lemma CStrSuffix(b: seq<char>, p: nat, k: nat)
    requires p <= |b| && k <= |CStr(b, p)|
    ensures CStr(b, p + k) == CStr(b, p)[k..]
  {
    assert StrEnd(b, p + k) == StrEnd(b, p);
  }
}
