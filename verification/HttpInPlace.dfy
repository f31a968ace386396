/**
 parse_request_line as the sequence of pointer moves and in-place cuts that it is, and the proof that it
 does what scanning the untouched line and then cutting it does.
*/
module HttpInPlace {
  import opened CString
  import opened Wrappers
  import opened HttpParser

  function InPlaceMethod(c: Conn, text: nat): (HttpCode, Conn)
    requires text <= |c.buf|
  {
    match StrPBrk(c.buf, text)
    case None => (BadRequest, c.(url := None))
    case Some(p) =>
      var buf := c.buf[p := NUL];
      match VerbOf(CStr(buf, text))
      case None => (BadRequest, c.(buf := buf, url := Some(p + 1)))
      case Some(verb) =>
        InPlaceTarget(c.(buf := buf, verb := verb, cgi := c.cgi || verb == POST,
                         url := Some(p + 1 + Span(CStr(buf, p + 1), BLANKS))))
  }

  function InPlaceTarget(c: Conn): (HttpCode, Conn)
    requires c.url.Some? && c.url.value <= |c.buf|
  {
    match StrPBrk(c.buf, c.url.value)
    case None => (BadRequest, c.(version := None))
    case Some(p) =>
      var buf := c.buf[p := NUL];
      var v := p + 1 + Span(CStr(buf, p + 1), BLANKS);
      var next := c.(buf := buf, version := Some(v));
      if !EqualFold(CStr(buf, v), "HTTP/1.1") then (BadRequest, next) else InPlaceUrl(next)
  }

  function InPlaceUrl(c: Conn): (HttpCode, Conn)
    requires c.url.Some? && c.url.value <= |c.buf|
  {
    match PathOffset(CStr(c.buf, c.url.value))
    case None => (BadRequest, c.(url := None))
    case Some(o) =>
      var p := c.url.value + o;
      if p == |c.buf| || c.buf[p] != '/' then (BadRequest, c.(url := Some(p)))
      else
        (NoRequest, c.(buf := if |CStr(c.buf, p)| == 1 then AppendJudge(c.buf, p) else c.buf, url := Some(p),
          state := Header))
  }

  /** The C string `t` at `text` and two bytes more lie before m_checked_idx. */
  ghost predicate LineAt(c: Conn, text: nat, t: seq<char>) {
    && InBounds(c) && text + |t| + 2 <= c.checkedIdx && CStr(c.buf, text) == t
  }

  /** The fields once the method has been read, with the two pointers and the buffer given */
  ghost function Stage(c: Conn, verb: Method, buf: seq<char>, url: Option<nat>, version: Option<nat>,
                       state: CheckState): Conn
  {
    c.(verb := verb, cgi := c.cgi || verb == POST, buf := buf, url := url, version := version, state := state)
  }

  lemma AfterBlank(b: seq<char>, text: nat, t: seq<char>, i: nat)
    requires text + |t| < |b| && CStr(b, text) == t && i < |t|
    ensures var b' := b[text + i := NUL];
      var u := i + 1 + Span(t[i + 1..], BLANKS);
      && CStr(b', text) == t[..i]
      && Span(CStr(b', text + i + 1), BLANKS) == u - i - 1
      && CStr(b', text + u) == t[u..]
  {
    CutString(b, text, i);
    SkipAndSearch(b[text + i := NUL], text + i + 1);
  }

  lemma AfterTarget(b: seq<char>, text: nat, t: seq<char>, u: nat, k: nat)
    requires text + |t| < |b| && u <= k < |t| && CStr(b, text + u) == t[u..]
    ensures var b' := b[text + k := NUL];
      var v := k + 1 + Span(t[k + 1..], BLANKS);
      && CStr(b', text + u) == t[u..k]
      && Span(CStr(b', text + k + 1), BLANKS) == v - k - 1
      && CStr(b', text + v) == t[v..]
  {
    CutString(b, text + u, k - u);
    assert t[u..][k - u + 1..] == t[k + 1..] && t[u..][..k - u] == t[u..k];
    SkipAndSearch(b[text + k := NUL], text + k + 1);
  }

  lemma InsideTarget(b: seq<char>, text: nat, t: seq<char>, u: nat, k: nat, o: nat)
    requires text + |t| < |b| && u <= k < |t| && CStr(b, text + u) == t[u..k] && u + o <= k
    ensures b[text + u + o] == '/' <==> u + o < k && t[u + o] == '/'
    ensures |CStr(b, text + u + o)| == k - u - o
  {
    Suffix(b, text + u, o);
    StrAt(b, text + u, o);
    assert u + o < k ==> t[u..k][o] == t[u + o];
  }

  ghost function CutTwice(c: Conn, text: nat, i: nat, k: nat): seq<char>
    requires text + i < |c.buf| && text + k < |c.buf|
  {
    c.buf[text + i := NUL][text + k := NUL]
  }

  lemma ApplyGood(c: Conn, text: nat, verb: Method, i: nat, p: nat, k: nat, v: nat)
    requires text + i < |c.buf| && text + k < |c.buf|
    ensures var cut := CutTwice(c, text, i, k);
      ApplyRequestLine(c, text, Good(verb, i, p, k, v)) ==
      (NoRequest, Stage(c, verb, if p + 1 == k then AppendJudge(cut, text + p) else cut, Some(text + p),
        Some(text + v), Header))
  {
  }

  lemma ApplyBadTarget(c: Conn, text: nat, verb: Method, i: nat, moved: Option<nat>, k: nat, v: nat)
    requires text + i < |c.buf| && text + k < |c.buf|
    ensures ApplyRequestLine(c, text, BadTarget(verb, i, moved, k, v)) ==
      (BadRequest, Stage(c, verb, CutTwice(c, text, i, k), if moved.None? then None else Some(text + moved.value),
        Some(text + v), c.state))
  {
  }

  lemma ApplyBadVersion(c: Conn, text: nat, verb: Method, i: nat, u: nat, k: nat, v: nat)
    requires text + i < |c.buf| && text + k < |c.buf|
    ensures ApplyRequestLine(c, text, BadVersion(verb, i, u, k, v)) ==
      (BadRequest, Stage(c, verb, CutTwice(c, text, i, k), Some(text + u), Some(text + v), c.state))
  {
  }

  lemma ApplyNoVersion(c: Conn, text: nat, verb: Method, i: nat, u: nat)
    requires text + i < |c.buf|
    ensures ApplyRequestLine(c, text, NoVersion(verb, i, u)) ==
      (BadRequest, Stage(c, verb, c.buf[text + i := NUL], Some(text + u), None, c.state))
  {
  }

  lemma ApplyNoBlank(c: Conn, text: nat)
    ensures ApplyRequestLine(c, text, NoBlank) == (BadRequest, c.(url := None))
  {
  }

  lemma ApplyBadMethod(c: Conn, text: nat, i: nat)
    requires text + i < |c.buf|
    ensures ApplyRequestLine(c, text, BadMethod(i)) ==
      (BadRequest, c.(buf := c.buf[text + i := NUL], url := Some(text + i + 1)))
  {
  }

  lemma VersionRejected(t: seq<char>, verb: Method, i: nat, u: nat, k: nat, v: nat)
    requires i < u <= k < v <= |t| && !EqualFold(t[v..], "HTTP/1.1")
    ensures ScanVersion(t, verb, i, u, k, v) == BadVersion(verb, i, u, k, v)
  {
  }

  lemma ScanVersionCases(t: seq<char>, verb: Method, i: nat, u: nat, k: nat, v: nat, o: Option<nat>)
    requires i < u <= k < v <= |t| && EqualFold(t[v..], "HTTP/1.1") && PathOffset(t[u..k]) == o
    ensures ScanVersion(t, verb, i, u, k, v) ==
      if o.None? then BadTarget(verb, i, None, k, v)
      else if u + o.value < k && t[u + o.value] == '/' then Good(verb, i, u + o.value, k, v)
      else BadTarget(verb, i, Some(u + o.value), k, v)
  {
  }

  lemma UrlIsScan(c: Conn, text: nat, t: seq<char>, verb: Method, i: nat, u: nat, k: nat, v: nat)
    requires LineAt(c, text, t) && i < u <= k < v <= |t| && EqualFold(t[v..], "HTTP/1.1")
    requires CStr(CutTwice(c, text, i, k), text + u) == t[u..k]
    ensures InPlaceUrl(Stage(c, verb, CutTwice(c, text, i, k), Some(text + u), Some(text + v), c.state)) ==
      ApplyRequestLine(c, text, ScanVersion(t, verb, i, u, k, v))
  {
    hide ScanVersion, ApplyRequestLine, PathOffset, AppendJudge, EqualFold, CStr;
    var o := PathOffset(t[u..k]);
    ScanVersionCases(t, verb, i, u, k, v, o);
    if o.None? {
      ApplyBadTarget(c, text, verb, i, None, k, v);
    } else {
      InsideTarget(CutTwice(c, text, i, k), text, t, u, k, o.value);
      if u + o.value < k && t[u + o.value] == '/' {
        ApplyGood(c, text, verb, i, u + o.value, k, v);
      } else {
        ApplyBadTarget(c, text, verb, i, Some(u + o.value), k, v);
      }
    }
  }

  lemma TargetIsScan(c: Conn, text: nat, t: seq<char>, verb: Method, i: nat, u: nat)
    requires LineAt(c, text, t) && i < u <= |t| && CStr(c.buf[text + i := NUL], text + u) == t[u..]
    ensures InPlaceTarget(Stage(c, verb, c.buf[text + i := NUL], Some(text + u), c.version, c.state)) ==
      ApplyRequestLine(c, text, ScanTarget(t, verb, i, u))
  {
    hide ScanVersion, ApplyRequestLine, InPlaceUrl, EqualFold, CStr;
    var b := c.buf[text + i := NUL];
    var k := u + FirstOf(t[u..], BLANKS);
    if k == |t| {
      ApplyNoVersion(c, text, verb, i, u);
    } else {
      var v := k + 1 + Span(t[k + 1..], BLANKS);
      AfterTarget(b, text, t, u, k);
      if !EqualFold(t[v..], "HTTP/1.1") {
        ApplyBadVersion(c, text, verb, i, u, k, v);
        VersionRejected(t, verb, i, u, k, v);
      } else {
        UrlIsScan(c, text, t, verb, i, u, k, v);
      }
    }
  }

  /** Cutting while reading gives what reading everything first and then cutting gives. */
  lemma InPlaceIsScan(c: Conn, text: nat, t: seq<char>)
    requires LineAt(c, text, t)
    ensures InPlaceMethod(c, text) == ParseRequestLine(c, text)
  {
    hide ScanTarget, InPlaceTarget, EqualFold, CStr, ApplyRequestLine, VerbOf;
    var i := FirstOf(t, BLANKS);
    ApplyNoBlank(c, text);
    if i < |t| {
      AfterBlank(c.buf, text, t, i);
      ApplyBadMethod(c, text, i);
      if VerbOf(t[..i]).Some? {
        TargetIsScan(c, text, t, VerbOf(t[..i]).value, i, i + 1 + Span(t[i + 1..], BLANKS));
      }
    }
  }
}
