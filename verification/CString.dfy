/**
 The C library calls that http_conn.cpp makes on NUL-terminated strings, as functions on sequences.
 A search reports the length of the sequence where the C call would reach the terminating NUL.
*/
module CString {
  import opened Wrappers

  const NUL: char := '\0'
  const CR: char := '\r'
  const LF: char := '\n'
  const BLANKS: set<char> := {' ', '\t'}
  const EOLS: set<char> := {'\r', '\n'}
  const CRLF: seq<char> := ['\r', '\n']

  /** strpbrk, strchr and strlen: where the first character of `cs` stands in `s`. */
  function FirstOf(s: seq<char>, cs: set<char>): (i: nat)
    ensures i <= |s|
  {
    FirstFrom(s, 0, cs)
  }

  function FirstFrom(s: seq<char>, p: nat, cs: set<char>): (i: nat)
    requires p <= |s|
    ensures p <= i <= |s|
    decreases |s| - p
  {
    if p == |s| || s[p] in cs then p else FirstFrom(s, p + 1, cs)
  }

  /** A search stops at a character of `cs` or at the end, and skips none. */
  lemma {:induction false} FirstFromIs(s: seq<char>, p: nat, cs: set<char>)
    requires p <= |s|
    ensures var i := FirstFrom(s, p, cs);
      (forall k | p <= k < i :: s[k] !in cs) && (i < |s| ==> s[i] in cs)
    decreases |s| - p
  {
    if p < |s| && s[p] !in cs {
      FirstFromIs(s, p + 1, cs);
    }
  }

  lemma FirstOfIs(s: seq<char>, cs: set<char>)
    ensures var i := FirstOf(s, cs);
      (forall k | 0 <= k < i :: s[k] !in cs) && (i < |s| ==> s[i] in cs)
  {
    FirstFromIs(s, 0, cs);
  }

  /** That determines the result. */
  lemma FirstOfUnique(s: seq<char>, cs: set<char>, i: nat)
    requires i <= |s|
    requires forall k | 0 <= k < i :: s[k] !in cs
    requires i < |s| ==> s[i] in cs
    ensures FirstOf(s, cs) == i
  {
    FirstOfIs(s, cs);
    var j := FirstOf(s, cs);
    assert !(i < j) && !(j < i);
  }

  /** strspn: how many leading characters of `s` are in `cs`. */
  function Span(s: seq<char>, cs: set<char>): (i: nat)
    ensures i <= |s|
  {
    SpanFrom(s, 0, cs)
  }

  function SpanFrom(s: seq<char>, p: nat, cs: set<char>): (i: nat)
    requires p <= |s|
    ensures p <= i <= |s|
    decreases |s| - p
  {
    if p == |s| || s[p] !in cs then p else SpanFrom(s, p + 1, cs)
  }

  lemma {:induction false} SpanFromIs(s: seq<char>, p: nat, cs: set<char>)
    requires p <= |s|
    ensures var i := SpanFrom(s, p, cs);
      (forall k | p <= k < i :: s[k] in cs) && (i < |s| ==> s[i] !in cs)
    decreases |s| - p
  {
    if p < |s| && s[p] in cs {
      SpanFromIs(s, p + 1, cs);
    }
  }

  lemma SpanUnique(s: seq<char>, cs: set<char>, i: nat)
    requires i <= |s| && (forall k | 0 <= k < i :: s[k] in cs) && (i < |s| ==> s[i] !in cs)
    ensures Span(s, cs) == i
  {
    SpanFromIs(s, 0, cs);
    assert !(Span(s, cs) < i) && !(i < Span(s, cs));
  }

  /** The C string that starts at index `p` of a buffer. */
  function CStr(b: seq<char>, p: nat): (s: seq<char>)
    requires p <= |b|
    ensures p + |s| <= |b|
  {
    seq(FirstFrom(b, p, {NUL}) - p, i requires 0 <= i && p + i < |b| => b[p + i])
  }

  lemma CStrIs(b: seq<char>, p: nat)
    requires p <= |b|
    ensures var s := CStr(b, p);
      && s == b[p..p + |s|]
      && (forall i | p <= i < p + |s| :: b[i] != NUL)
      && (forall i | 0 <= i < |s| :: s[i] == b[p + i] && s[i] != NUL)
      && (p + |s| < |b| ==> b[p + |s|] == NUL)
  {
    FirstFromIs(b, p, {NUL});
  }

  lemma CStrUnique(b: seq<char>, p: nat, s: seq<char>)
    requires p + |s| <= |b| && (p + |s| < |b| ==> b[p + |s|] == NUL)
    requires forall i | 0 <= i < |s| :: b[p + i] == s[i] != NUL
    ensures CStr(b, p) == s
  {
    CStrIs(b, p);
    assert forall i | p <= i < p + |s| :: b[i] == s[i - p];
    assert !(|CStr(b, p)| < |s|) && !(|s| < |CStr(b, p)|);
    SameChars(CStr(b, p), s);
  }

  /** A string that ends before index `n` is not affected by what lies from `n` on. */
  lemma CStrFrame(b: seq<char>, b': seq<char>, p: nat, n: nat)
    requires p <= n <= |b| && n <= |b'|
    requires forall i | p <= i < n :: b'[i] == b[i]
    requires p + |CStr(b, p)| < n
    ensures CStr(b', p) == CStr(b, p)
  {
    CStrIs(b, p);
    CStrUnique(b', p, CStr(b, p));
  }

  lemma SameChars(a: seq<char>, b: seq<char>)
    requires |a| == |b| && forall i | 0 <= i < |a| :: a[i] == b[i]
    ensures a == b
  {
  }

  /** strpbrk(b + p, " \t") */
  function StrPBrk(b: seq<char>, p: nat): Option<nat>
    requires p <= |b|
  {
    var s := CStr(b, p);
    var i := FirstOf(s, BLANKS);
    if i < |s| then Some(p + i) else None
  }

  /** Writing a NUL into a string cuts it in two. */
  lemma CutString(b: seq<char>, p: nat, i: nat)
    requires p <= |b| && i < |CStr(b, p)| && p + |CStr(b, p)| < |b|
    ensures CStr(b[p + i := NUL], p) == CStr(b, p)[..i]
    ensures CStr(b[p + i := NUL], p + i + 1) == CStr(b, p)[i + 1..]
  {
    CStrIs(b, p);
    CStrUnique(b[p + i := NUL], p, CStr(b, p)[..i]);
    CStrUnique(b[p + i := NUL], p + i + 1, CStr(b, p)[i + 1..]);
  }

  /** Skipping characters of a string leaves its tail. */
  lemma Suffix(b: seq<char>, p: nat, n: nat)
    requires p <= |b| && n <= |CStr(b, p)| && p + |CStr(b, p)| < |b|
    ensures CStr(b, p + n) == CStr(b, p)[n..]
  {
    CStrIs(b, p);
    CStrUnique(b, p + n, CStr(b, p)[n..]);
  }

  lemma StrAt(b: seq<char>, p: nat, j: nat)
    requires p <= |b| && j <= |CStr(b, p)| && p + |CStr(b, p)| < |b|
    ensures b[p + j] == if j < |CStr(b, p)| then CStr(b, p)[j] else NUL
  {
    CStrIs(b, p);
  }

  /** Skipping the blanks of a string, and then looking for the next one */
  lemma SkipAndSearch(b: seq<char>, p: nat)
    requires p <= |b| && p + |CStr(b, p)| < |b|
    ensures var s := CStr(b, p);
      var n := Span(s, BLANKS);
      && CStr(b, p + n) == s[n..]
      && StrPBrk(b, p + n) == (var k := n + FirstOf(s[n..], BLANKS); if k < |s| then Some(p + k) else None)
  {
    Suffix(b, p, Span(CStr(b, p), BLANKS));
  }

  function Lower(c: char): char {
    if 'A' <= c <= 'Z' then (c as int + 32) as char else c
  }

  /** strcasecmp(a, b) == 0 */
  predicate EqualFold(a: seq<char>, b: seq<char>) {
    |a| == |b| && forall i | 0 <= i < |a| :: Lower(a[i]) == Lower(b[i])
  }

  /** strncasecmp(s, prefix, strlen(prefix)) == 0 */
  predicate StartsFold(s: seq<char>, prefix: seq<char>) {
    |prefix| <= |s| && EqualFold(s[..|prefix|], prefix)
  }

  /** `s` after its leading blanks */
  function TrimLeft(s: seq<char>): seq<char> {
    s[Span(s, BLANKS)..]
  }

  // ----- numbers -----

  predicate IsDigit(c: char) {
    '0' <= c <= '9'
  }

  function DigitValue(c: char): nat
    requires IsDigit(c)
  {
    c as int - '0' as int
  }

  /** The decimal number at the front of `s`, continuing from `acc`. */
  function LeadingNumber(s: seq<char>, acc: nat): nat {
    if s == [] || !IsDigit(s[0]) then acc else LeadingNumber(s[1..], 10 * acc + DigitValue(s[0]))
  }

  const SPACES: set<char> := {' ', '\t', '\n', '\r', 0x0B as char, 0x0C as char}
  const LONG_MAX: int := 0x7FFF_FFFF_FFFF_FFFF
  const INT_MAX: int := 0x7FFF_FFFF

  /** atol, with the clamping of strtol */
  function Atol(s: seq<char>): int {
    var t := s[Span(s, SPACES)..];
    if t != [] && t[0] == '-' then
      var n := 0 - LeadingNumber(t[1..], 0) as int;
      if n < -LONG_MAX - 1 then -LONG_MAX - 1 else n
    else
      var n := LeadingNumber(if t != [] && t[0] == '+' then t[1..] else t, 0);
      if n > LONG_MAX then LONG_MAX else n
  }

  /** The value kept when a wider integer is stored in a 32-bit int. */
  function ToInt32(n: int): (r: int)
    ensures -INT_MAX - 1 <= r <= INT_MAX
    ensures (n - r) % 0x1_0000_0000 == 0
  {
    if -INT_MAX - 1 <= n <= INT_MAX then n else (n + INT_MAX + 1) % 0x1_0000_0000 - INT_MAX - 1
  }

  /** "%d" for a non-negative number */
  function Decimal(n: nat): (s: seq<char>)
    ensures s != [] && forall i | 0 <= i < |s| :: IsDigit(s[i])
  {
    if n < 10 then [('0' as int + n) as char] else Decimal(n / 10) + [('0' as int + n % 10) as char]
  }

  lemma {:induction false} LeadingNumberAppend(a: seq<char>, b: seq<char>, acc: nat)
    requires forall i | 0 <= i < |a| :: IsDigit(a[i])
    ensures LeadingNumber(a + b, acc) == LeadingNumber(b, LeadingNumber(a, acc))
  {
    if a == [] {
      assert a + b == b;
    } else {
      assert (a + b)[1..] == a[1..] + b;
      LeadingNumberAppend(a[1..], b, 10 * acc + DigitValue(a[0]));
    }
  }

  lemma {:induction false} DecimalValue(n: nat)
    ensures LeadingNumber(Decimal(n), 0) == n
  {
    if n < 10 {
      var d := Decimal(n);
      assert d[1..] == [] && DigitValue(d[0]) == n;
    } else {
      var last := [('0' as int + n % 10) as char];
      DecimalValue(n / 10);
      LeadingNumberAppend(Decimal(n / 10), last, 0);
      assert last[1..] == [] && DigitValue(last[0]) == n % 10;
      assert LeadingNumber(last, n / 10) == LeadingNumber(last[1..], 10 * (n / 10) + n % 10);
    }
  }

  /** Reading a printed int gives it back. */
  lemma AtolDecimal(n: nat)
    requires n <= INT_MAX
    ensures ToInt32(Atol(Decimal(n))) == n
  {
    var s := Decimal(n);
    assert s[0] !in SPACES && s[0] != '-' && s[0] != '+';
    SpanUnique(s, SPACES, 0);
    assert s[0..] == s;
    DecimalValue(n);
  }

  lemma {:induction false} DecimalLength(n: nat, k: nat, bound: nat)
    requires k >= 1 && n < bound && bound == Pow10(k)
    ensures |Decimal(n)| <= k
    decreases k
  {
    if n >= 10 {
      assert k > 1;
      DecimalLength(n / 10, k - 1, Pow10(k - 1));
    }
  }

  function Pow10(k: nat): nat {
    if k == 0 then 1 else 10 * Pow10(k - 1)
  }
}
