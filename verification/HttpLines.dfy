/**
 What a request line and a header line mean, said letter by letter and piece by piece, without scanning: the
 readers of this server are proved to do exactly that, on every line.
*/
module HttpLines {
  import opened CString
  import opened Wrappers
  import opened HttpParser
  import opened HttpReference

  // ----- letters and blanks -----

  /** The same character, or the two cases of one letter */
  predicate SameLetter(a: char, b: char) {
    a == b || ('A' <= a <= 'Z' && b as int == a as int + 32) || ('A' <= b <= 'Z' && a as int == b as int + 32)
  }

  predicate CaseVariant(a: seq<char>, b: seq<char>) {
    |a| == |b| && forall i | 0 <= i < |a| :: SameLetter(a[i], b[i])
  }

  predicate Named(t: seq<char>, name: seq<char>) {
    |name| <= |t| && CaseVariant(t[..|name|], name)
  }

  predicate IsBlank(c: char) {
    c == ' ' || c == '\t'
  }

  predicate Unblank(s: seq<char>) {
    forall i | 0 <= i < |s| :: !IsBlank(s[i])
  }

  predicate BlankRun(s: seq<char>) {
    s != [] && forall i | 0 <= i < |s| :: IsBlank(s[i])
  }

  function AfterBlanks(s: seq<char>): seq<char> {
    if s != [] && IsBlank(s[0]) then AfterBlanks(s[1..]) else s
  }

  lemma LowerIsSame(a: char, b: char)
    ensures Lower(a) == Lower(b) <==> SameLetter(a, b)
  {
  }

  /** strcasecmp finds two strings equal if and only if they differ at most in the case of letters. */
  lemma FoldIsCaseVariant(a: seq<char>, b: seq<char>)
    ensures EqualFold(a, b) <==> CaseVariant(a, b)
  {
    hide Lower, SameLetter;
    if |a| == |b| {
      forall i | 0 <= i < |a| ensures Lower(a[i]) == Lower(b[i]) <==> SameLetter(a[i], b[i]) {
        LowerIsSame(a[i], b[i]);
      }
    }
  }

  lemma StartsIsNamed(t: seq<char>, name: seq<char>)
    ensures StartsFold(t, name) <==> Named(t, name)
  {
    hide EqualFold, CaseVariant;
    if |name| <= |t| {
      FoldIsCaseVariant(t[..|name|], name);
    }
  }

  lemma {:induction false} AfterBlanksIs(s: seq<char>) returns (n: nat)
    ensures n <= |s| && AfterBlanks(s) == s[n..]
    ensures forall i | 0 <= i < n :: IsBlank(s[i])
    ensures n < |s| ==> !IsBlank(s[n])
  {
    if s != [] && IsBlank(s[0]) {
      var k := AfterBlanksIs(s[1..]);
      n := k + 1;
      assert s[1..][k..] == s[n..];
      assert forall i | 0 < i < n :: s[i] == s[1..][i - 1];
    } else {
      n := 0;
      assert s[0..] == s;
    }
  }

  lemma TrimIs(s: seq<char>)
    ensures TrimLeft(s) == AfterBlanks(s)
  {
    var n := AfterBlanksIs(s);
    SpanUnique(s, BLANKS, n);
  }

  // ----- numbers -----

  predicate IsSpace(c: char) {
    c == ' ' || c == '\t' || c == '\n' || c == '\r' || c as int == 11 || c as int == 12
  }

  function AfterSpaces(s: seq<char>): seq<char> {
    if s != [] && IsSpace(s[0]) then AfterSpaces(s[1..]) else s
  }

  /** The longest row of digits at the front of `s` */
  function Digits(s: seq<char>): (ds: seq<char>)
    ensures forall i | 0 <= i < |ds| :: IsDigit(ds[i])
  {
    if s != [] && IsDigit(s[0]) then [s[0]] + Digits(s[1..]) else []
  }

  /** The value of a row of digits, its last digit being the units */
  function Value(ds: seq<char>): nat
    requires forall i | 0 <= i < |ds| :: IsDigit(ds[i])
  {
    if ds == [] then 0
    else
      assert IsDigit(ds[|ds| - 1]);
      10 * Value(ds[..|ds| - 1]) + (ds[|ds| - 1] as int - 48)
  }

  function Clamped(n: int): int {
    if n > 9223372036854775807 then 9223372036854775807
    else if n < -9223372036854775808 then -9223372036854775808
    else n
  }

  /** The number that a text begins with: blanks, a sign or none, digits; 0 if there are no digits */
  function Number(s: seq<char>): int {
    var t := AfterSpaces(s);
    if t != [] && t[0] == '-' then Clamped(0 - Value(Digits(t[1..])) as int)
    else Clamped(Value(Digits(if t != [] && t[0] == '+' then t[1..] else t)))
  }

  lemma {:induction false} ValueOfDigits(s: seq<char>, acc: nat)
    ensures LeadingNumber(s, acc) == acc * Pow10(|Digits(s)|) + Value(Digits(s))
  {
    hide IsDigit, DigitValue;
    if s != [] && IsDigit(s[0]) {
      var rest := Digits(s[1..]);
      ValueOfDigits(s[1..], 10 * acc + DigitValue(s[0]));
      ValueFirst(s[0], rest);
      assert Digits(s) == [s[0]] + rest;
      Distribute(acc, DigitValue(s[0]), Pow10(|rest|));
    }
  }

  lemma Distribute(acc: nat, d: nat, p: nat)
    ensures (10 * acc + d) * p == acc * (10 * p) + d * p
  {
  }

  lemma {:induction false} ValueFirst(c: char, ds: seq<char>)
    requires IsDigit(c) && forall i | 0 <= i < |ds| :: IsDigit(ds[i])
    ensures Value([c] + ds) == DigitValue(c) * Pow10(|ds|) + Value(ds)
    decreases |ds|
  {
    var all := [c] + ds;
    if ds == [] {
      assert all[..|all| - 1] == [];
    } else {
      var front := ds[..|ds| - 1];
      assert all[..|all| - 1] == [c] + front;
      ValueFirst(c, front);
    }
  }

  lemma {:induction false} AfterSpacesIs(s: seq<char>) returns (n: nat)
    ensures n <= |s| && AfterSpaces(s) == s[n..]
    ensures forall i | 0 <= i < n :: IsSpace(s[i])
    ensures n < |s| ==> !IsSpace(s[n])
  {
    if s != [] && IsSpace(s[0]) {
      var k := AfterSpacesIs(s[1..]);
      n := k + 1;
      assert s[1..][k..] == s[n..];
      assert forall i | 0 < i < n :: s[i] == s[1..][i - 1];
    } else {
      n := 0;
      assert s[0..] == s;
    }
  }

  /** atol reads the number that a text begins with. */
  lemma AtolIsNumber(s: seq<char>)
    ensures Atol(s) == Number(s)
  {
    var n := AfterSpacesIs(s);
    SpanUnique(s, SPACES, n);
    var t := s[n..];
    ValueOfDigits(t, 0);
    if t != [] {
      ValueOfDigits(t[1..], 0);
    }
  }

  // ----- header lines -----

  /** What a header line does to the request read so far */
  function HeaderEffect(r: Request, t: seq<char>): Request {
    if Named(t, "Connection:") then
      if CaseVariant(AfterBlanks(t[11..]), "keep-alive") then r.(linger := true) else r
    else if Named(t, "Content-length:") then r.(contentLength := ToInt32(Number(AfterBlanks(t[15..]))))
    else if Named(t, "Host:") then r.(host := Some(AfterBlanks(t[5..])))
    else r
  }

  /** Every header line is read so: three names are known, in any case, and every other line has no effect. */
  lemma HeaderMeans(r: Request, t: seq<char>)
    ensures AddHeader(r, t) == HeaderEffect(r, t)
  {
    hide Named, CaseVariant, EqualFold, StartsFold, TrimLeft, AfterBlanks, Atol, Number;
    StartsIsNamed(t, "Connection:");
    StartsIsNamed(t, "Content-length:");
    StartsIsNamed(t, "Host:");
    NamedIsLong(t, "Connection:");
    NamedIsLong(t, "Content-length:");
    NamedIsLong(t, "Host:");
    if Named(t, "Connection:") {
      TrimIs(t[11..]);
      FoldIsCaseVariant(AfterBlanks(t[11..]), "keep-alive");
    } else if Named(t, "Content-length:") {
      TrimIs(t[15..]);
      AtolIsNumber(AfterBlanks(t[15..]));
    } else if Named(t, "Host:") {
      TrimIs(t[5..]);
      HostTail(t);
    }
  }

  lemma NamedIsLong(t: seq<char>, name: seq<char>)
    ensures Named(t, name) ==> |name| <= |t|
  {
  }

  lemma HostTail(t: seq<char>)
    requires |t| >= 5
    ensures t[5 + Span(t[5..], BLANKS)..] == TrimLeft(t[5..])
  {
  }

  /** A line that none of the three known headers is, or a Connection line that does not ask to keep alive */
  predicate Unnoticed(t: seq<char>) {
    && !Named(t, "Content-length:") && !Named(t, "Host:")
    && (Named(t, "Connection:") ==> !CaseVariant(AfterBlanks(t[11..]), "keep-alive"))
  }

  lemma UnnoticedHasNoEffect(r: Request, t: seq<char>)
    requires Unnoticed(t)
    ensures AddHeader(r, t) == r
  {
    HeaderMeans(r, t);
  }

  // ----- request lines -----

  function MethodOf(m: seq<char>): Option<Method> {
    if CaseVariant(m, "GET") then Some(GET) else if CaseVariant(m, "POST") then Some(POST) else None
  }

  /** `s` from its first '/' on */
  function FromSlash(s: seq<char>): seq<char> {
    if s == [] || s[0] == '/' then s else FromSlash(s[1..])
  }

  /** The page that a request target asks for: a path, alone or behind scheme and host; "/" is the judge page. */
  function PathOf(u: seq<char>): Option<seq<char>> {
    var p := if Named(u, "http://") then FromSlash(u[7..])
             else if Named(u, "https://") then FromSlash(u[8..]) else u;
    if p == [] || p[0] != '/' then None else if |p| == 1 then Some("/judge.html") else Some(p)
  }

  lemma {:induction false} FromSlashIs(s: seq<char>)
    ensures FromSlash(s) == s[FirstOf(s, {'/'})..]
  {
    FirstOfIs(s, {'/'});
    var i := FirstOf(s, {'/'});
    if s != [] && s[0] != '/' {
      FromSlashIs(s[1..]);
      assert forall k | 0 <= k < i - 1 :: s[1..][k] == s[k + 1];
      FirstOfUnique(s[1..], {'/'}, i - 1);
      assert s[1..][i - 1..] == s[i..];
    }
  }

  lemma NotScheme(s: seq<char>, scheme: seq<char>)
    requires s == [] || s[0] == '/'
    requires scheme != [] && !SameLetter('/', scheme[0])
    ensures !Named(s, scheme)
  {
    if |scheme| <= |s| {
      assert s[..|scheme|][0] == '/';
    }
  }

  /** m_url moves to the path, if there is one. */
  lemma PathIs(u: seq<char>)
    ensures var o := PathOffset(u);
      PathOf(u) == if o.None? || o.value == |u| || u[o.value] != '/' then None
        else if o.value + 1 == |u| then Some("/judge.html") else Some(u[o.value..])
  {
    hide Named, FirstOf, StartsFold;
    StartsIsNamed(u, "http://");
    NamedIsLong(u, "http://");
    NamedIsLong(u, "https://");
    if Named(u, "http://") {
      FromSlashIs(u[7..]);
      var i := 7 + FirstOf(u[7..], {'/'});
      FirstOfIs(u[7..], {'/'});
      assert u[7..][i - 7..] == u[i..];
      NotScheme(u[i..], "https://");
      StartsIsNamed(u[i..], "https://");
    } else {
      assert u[0..] == u;
      StartsIsNamed(u, "https://");
      if Named(u, "https://") {
        FromSlashIs(u[8..]);
        var i := 8 + FirstOf(u[8..], {'/'});
        assert u[8..][i - 8..] == u[i..];
      }
    }
  }

  /** Where the pieces of a request line are */
  lemma Pieces(m: seq<char>, b1: seq<char>, u: seq<char>, b2: seq<char>, v: seq<char>)
    requires Unblank(m) && BlankRun(b1) && u != [] && Unblank(u) && BlankRun(b2) && (v == [] || !IsBlank(v[0]))
    ensures var t := m + b1 + u + b2 + v;
      var i, w := |m|, |m| + |b1|;
      var k, x := w + |u|, w + |u| + |b2|;
      && FirstOf(t, BLANKS) == i && t[..i] == m
      && i + 1 + Span(t[i + 1..], BLANKS) == w
      && w + FirstOf(t[w..], BLANKS) == k && t[w..k] == u
      && k + 1 + Span(t[k + 1..], BLANKS) == x && t[x..] == v
  {
    hide FirstOf, Span;
    var t := m + b1 + u + b2 + v;
    var i, w := |m|, |m| + |b1|;
    var k, x := w + |u|, w + |u| + |b2|;
    FirstOfUnique(t, BLANKS, i);
    SpanUnique(t[i + 1..], BLANKS, |b1| - 1);
    FirstOfUnique(t[w..], BLANKS, |u|);
    SpanUnique(t[k + 1..], BLANKS, |b2| - 1);
  }

  lemma PiecesScanned(m: seq<char>, b1: seq<char>, u: seq<char>, b2: seq<char>, v: seq<char>)
    requires Unblank(m) && BlankRun(b1) && u != [] && Unblank(u) && BlankRun(b2) && (v == [] || !IsBlank(v[0]))
    ensures var t := m + b1 + u + b2 + v;
      var w := |m| + |b1|;
      ScanRequestLine(t) ==
        if VerbOf(m).None? then BadMethod(|m|)
        else ScanVersion(t, VerbOf(m).value, |m|, w, w + |u|, w + |u| + |b2|)
  {
    hide FirstOf, Span, VerbOf, ScanVersion, BlankRun, Unblank;
    Pieces(m, b1, u, b2, v);
  }

  /** What is read of a line whose target and version stand at the given places */
  lemma VersionRead(t: seq<char>, verb: Method, i: nat, w: nat, k: nat, x: nat)
    requires i < w < k < x <= |t|
    ensures var u, v := t[w..k], t[x..];
      var scan := ScanVersion(t, verb, i, w, k, x);
      if CaseVariant(v, "HTTP/1.1") && PathOf(u).Some?
      then scan.Good? && scan.verb == verb && scan.url < scan.targetEnd == k && Target(t, scan) == PathOf(u).value
      else !scan.Good?
  {
    hide EqualFold, CaseVariant, PathOf, PathOffset;
    var u := t[w..k];
    FoldIsCaseVariant(t[x..], "HTTP/1.1");
    PathIs(u);
    var o := PathOffset(u);
    if o.Some? && o.value < |u| {
      assert u[o.value] == t[w + o.value];
      assert u[o.value..] == t[w + o.value..k];
    }
  }

  lemma MethodIs(m: seq<char>)
    ensures VerbOf(m) == MethodOf(m)
  {
    hide EqualFold, CaseVariant;
    FoldIsCaseVariant(m, "GET");
    FoldIsCaseVariant(m, "POST");
  }

  /** Every request line of five pieces is read so. */
  lemma RequestLineMeans(m: seq<char>, b1: seq<char>, u: seq<char>, b2: seq<char>, v: seq<char>)
    requires Unblank(m) && BlankRun(b1) && u != [] && Unblank(u) && BlankRun(b2) && (v == [] || !IsBlank(v[0]))
    ensures ReadRequestLine(m + b1 + u + b2 + v) ==
      if MethodOf(m).Some? && CaseVariant(v, "HTTP/1.1") && PathOf(u).Some?
      then Some(Request(MethodOf(m).value, PathOf(u).value, None, 0, false, "")) else None
  {
    hide ScanRequestLine, ScanVersion, VerbOf, MethodOf, CaseVariant, PathOf, BlankRun, Unblank, Target;
    var t, w := m + b1 + u + b2 + v, |m| + |b1|;
    PiecesScanned(m, b1, u, b2, v);
    MethodIs(m);
    NotEmpty(b1, b2);
    assert t[w..w + |u|] == u && t[w + |u| + |b2|..] == v;
    if MethodOf(m).Some? {
      VersionRead(t, MethodOf(m).value, |m|, w, w + |u|, w + |u| + |b2|);
    }
  }

  lemma NotEmpty(a: seq<char>, b: seq<char>)
    requires BlankRun(a) && BlankRun(b)
    ensures |a| > 0 && |b| > 0
  {
  }

  /** A line without two blanks between three words is no request line. */
  lemma ShortLine(m: seq<char>, b1: seq<char>, u: seq<char>)
    requires Unblank(m) && Unblank(u) && (b1 == [] ==> u == []) && (b1 != [] ==> BlankRun(b1))
    ensures ReadRequestLine(m + b1 + u) == None
  {
    hide EqualFold;
    var t, i, w := m + b1 + u, |m|, |m| + |b1|;
    FirstOfUnique(t, BLANKS, i);
    if b1 != [] {
      SpanUnique(t[i + 1..], BLANKS, |b1| - 1);
      FirstOfUnique(t[w..], BLANKS, |u|);
    }
  }

  lemma NextWord(s: seq<char>) returns (word: seq<char>, rest: seq<char>)
    ensures s == word + rest && Unblank(word) && (rest == [] || IsBlank(rest[0]))
      && (s != [] && !IsBlank(s[0]) ==> word != [])
  {
    FirstOfIs(s, BLANKS);
    var i := FirstOf(s, BLANKS);
    word, rest := s[..i], s[i..];
  }

  lemma NextRun(s: seq<char>) returns (run: seq<char>, rest: seq<char>)
    requires s != [] && IsBlank(s[0])
    ensures s == run + rest && BlankRun(run) && (rest == [] || !IsBlank(rest[0]))
  {
    var n := AfterBlanksIs(s);
    run, rest := s[..n], s[n..];
    assert n > 0;
  }

  /** Every line is of one of these two kinds. */
  lemma EveryLine(t: seq<char>)
    returns (whole: bool, m: seq<char>, b1: seq<char>, u: seq<char>, b2: seq<char>, v: seq<char>)
    ensures Unblank(m) && Unblank(u) && (v == [] || !IsBlank(v[0]))
    ensures if whole then t == m + b1 + u + b2 + v && BlankRun(b1) && u != [] && BlankRun(b2)
      else t == m + b1 + u && (b1 == [] ==> u == []) && (b1 != [] ==> BlankRun(b1))
  {
    hide Unblank, BlankRun, IsBlank;
    var t1, t2, t3;
    m, t1 := NextWord(t);
    b1, u, b2, v, whole := [], [], [], [], false;
    EmptyIsUnblank();
    if t1 != [] {
      b1, t2 := NextRun(t1);
      u, t3 := NextWord(t2);
      if t3 != [] {
        whole := true;
        b2, v := NextRun(t3);
        assert t2 != [];
        assert m + (b1 + (u + (b2 + v))) == m + b1 + u + b2 + v;
      }
    }
  }

  lemma EmptyIsUnblank()
    ensures Unblank([])
  {
  }

  // ----- requests -----

  /** Behind a good request line nothing makes a request malformed. */
  lemma {:induction false} HeadersNeverMalformed(r: Request, input: seq<char>)
    ensures !ReadHeaders(r, input).Malformed?
    decreases |input|
  {
    hide AddHeader;
    match SplitLine(input)
    case None =>
    case Some((line, rest)) =>
      if Text(line) != [] {
        HeadersNeverMalformed(AddHeader(r, Text(line)), rest);
      }
  }

  /** Text that stays one line and one C string */
  predicate Clean(s: seq<char>) {
    forall i | 0 <= i < |s| :: s[i] != '\r' && s[i] != '\n' && s[i] != '\0'
  }

  lemma SplitPrinted(line: seq<char>, rest: seq<char>)
    requires Clean(line)
    ensures SplitLine(line + CRLF + rest) == Some((line, rest))
    ensures Text(line) == line
  {
    var input := line + CRLF + rest;
    assert input[|line|] == CR && input[|line| + 1] == LF;
    FirstOfUnique(input, EOLS, |line|);
    FirstOfUnique(line, {NUL}, |line|);
    SameChars(input[..|line|], line);
    SameChars(input[|line| + 2..], rest);
  }

  /**
   Whatever follows it, a request is malformed if and only if its first line lacks one of the three words, or
   its method is neither GET nor POST, its version is not HTTP/1.1, or its target has no path; letter case aside.
  */
  lemma MalformedExactly(m: seq<char>, b1: seq<char>, u: seq<char>, b2: seq<char>, v: seq<char>, rest: seq<char>)
    requires Unblank(m) && BlankRun(b1) && u != [] && Unblank(u) && BlankRun(b2) && (v == [] || !IsBlank(v[0]))
    requires Clean(m) && Clean(u) && Clean(v)
    ensures var p := ParseRequest(m + b1 + u + b2 + v + ['\r', '\n'] + rest);
      if MethodOf(m).Some? && CaseVariant(v, "HTTP/1.1") && PathOf(u).Some?
      then p == ReadHeaders(Request(MethodOf(m).value, PathOf(u).value, None, 0, false, ""), rest) && !p.Malformed?
      else p.Malformed?
  {
    hide SplitLine, Text, ReadRequestLine, ReadHeaders, MethodOf, CaseVariant, PathOf;
    var line := m + b1 + u + b2 + v;
    PiecesAreClean(m, b1, u, b2, v);
    SplitPrinted(line, rest);
    RequestLineMeans(m, b1, u, b2, v);
    if MethodOf(m).Some? && CaseVariant(v, "HTTP/1.1") && PathOf(u).Some? {
      HeadersNeverMalformed(Request(MethodOf(m).value, PathOf(u).value, None, 0, false, ""), rest);
    }
  }

  lemma PiecesAreClean(m: seq<char>, b1: seq<char>, u: seq<char>, b2: seq<char>, v: seq<char>)
    requires Clean(m) && Clean(u) && Clean(v) && BlankRun(b1) && BlankRun(b2)
    ensures Clean(m + b1 + u + b2 + v)
  {
  }

  lemma ShortMalformed(m: seq<char>, b1: seq<char>, u: seq<char>, rest: seq<char>)
    requires Unblank(m) && Unblank(u) && (b1 == [] ==> u == []) && (b1 != [] ==> BlankRun(b1))
    requires Clean(m) && Clean(u)
    ensures ParseRequest(m + b1 + u + ['\r', '\n'] + rest).Malformed?
  {
    hide SplitLine, Text, ReadRequestLine;
    assert Clean(m + b1 + u);
    SplitPrinted(m + b1 + u, rest);
    ShortLine(m, b1, u);
  }
}
