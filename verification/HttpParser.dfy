/**
 The request side of http_conn as a transition function on its fields: the line scanner, the three
 parsers it feeds and the loop of process_read. Pointers into m_read_buf are indices; NULL is None.
 Where process_read returns do_request(), this model returns GetRequest.
*/
module HttpParser {
  import opened CString
  import opened Wrappers

  const READ_BUFFER_SIZE: nat := 2048

  datatype CheckState = RequestLine | Header | Content
  datatype LineStatus = LineOk | LineBad | LineOpen
  datatype Method = GET | POST
  datatype HttpCode =
    | NoRequest | GetRequest | BadRequest | NoResource | ForbiddenRequest | FileRequest | InternalError

  datatype Conn = Conn(
    buf: seq<char>,
    readIdx: nat,
    checkedIdx: nat,
    startLine: nat,
    state: CheckState,
    verb: Method,
    cgi: bool,
    url: Option<nat>,
    version: Option<nat>,
    host: Option<nat>,
    contentLength: int,
    linger: bool,
    body: Option<nat>)

  /** The cursors are ordered and inside the buffer. */
  predicate InBounds(c: Conn) {
    && |c.buf| == READ_BUFFER_SIZE
    && c.startLine <= c.checkedIdx <= c.readIdx <= READ_BUFFER_SIZE
  }

  /** No line end lies in the scanned part of the current line, and none was left behind unconsumed. */
  predicate Valid(c: Conn) {
    && InBounds(c)
    && (forall i | c.startLine <= i < c.checkedIdx :: c.buf[i] !in EOLS)
    && (c.checkedIdx > 0 ==> c.buf[c.checkedIdx - 1] != CR)
  }

  /** The fields as init() leaves them. m_string is not reset. */
  function Fresh(body: Option<nat>): (c: Conn)
    ensures Valid(c)
  {
    Conn(seq(READ_BUFFER_SIZE, i => NUL), 0, 0, 0, RequestLine, GET, false, None, None, None, 0, false, body)
  }

  // ----- the line scanner -----

  /** Where the scan from m_checked_idx stops: at the next line end or at m_read_idx */
  function ScanEnd(c: Conn): (q: nat)
    requires InBounds(c)
    ensures c.checkedIdx <= q <= c.readIdx
  {
    FirstFrom(c.buf[..c.readIdx], c.checkedIdx, EOLS)
  }

  lemma ScanEndIs(c: Conn)
    requires InBounds(c)
    ensures forall i | c.checkedIdx <= i < ScanEnd(c) :: c.buf[i] !in EOLS
    ensures ScanEnd(c) < c.readIdx ==> c.buf[ScanEnd(c)] in EOLS
  {
    FirstFromIs(c.buf[..c.readIdx], c.checkedIdx, EOLS);
    assert forall i | 0 <= i < c.readIdx :: c.buf[..c.readIdx][i] == c.buf[i];
  }

  lemma ScanEndUnique(c: Conn, q: nat)
    requires InBounds(c) && c.checkedIdx <= q <= c.readIdx
    requires forall i | c.checkedIdx <= i < q :: c.buf[i] !in EOLS
    requires q < c.readIdx ==> c.buf[q] in EOLS
    ensures ScanEnd(c) == q
  {
    ScanEndIs(c);
    assert !(ScanEnd(c) < q) && !(q < ScanEnd(c));
  }

  /** What parse_line does when its scan has stopped at `q` */
  function EndLine(c: Conn, q: nat): (r: (LineStatus, Conn))
    requires InBounds(c) && q <= c.readIdx
  {
    if q == c.readIdx then (LineOpen, c.(checkedIdx := q))
    else if c.buf[q] == CR then
      if q + 1 == c.readIdx then (LineOpen, c.(checkedIdx := q))
      else if c.buf[q + 1] == LF then (LineOk, c.(buf := c.buf[q := NUL][q + 1 := NUL], checkedIdx := q + 2))
      else (LineBad, c.(checkedIdx := q))
    else if q > 1 && c.buf[q - 1] == CR then (LineOk, c.(buf := c.buf[q - 1 := NUL][q := NUL], checkedIdx := q + 1))
    else (LineBad, c.(checkedIdx := q))
  }

  function ParseLine(c: Conn): (r: (LineStatus, Conn))
    requires InBounds(c)
    ensures InBounds(r.1) && r.1 == c.(buf := r.1.buf, checkedIdx := r.1.checkedIdx)
    ensures c.checkedIdx <= r.1.checkedIdx
    ensures r.0 == LineOk ==> c.checkedIdx < r.1.checkedIdx
    ensures r.0 != LineOk ==> r.1 == c.(checkedIdx := ScanEnd(c))
  {
    EndLine(c, ScanEnd(c))
  }

  // ----- the three parsers -----

  /** The path inside an absolute URL: `s` after "http://" or "https://" from its first '/'. */
  function SkipScheme(s: seq<char>, scheme: seq<char>): (r: Option<nat>)
    ensures r.Some? ==> r.value <= |s|
  {
    if !StartsFold(s, scheme) then Some(0)
    else
      var i := |scheme| + FirstOf(s[|scheme|..], {'/'});
      if i < |s| then Some(i) else None
  }

  /** How far m_url moves into request target `s` when a scheme and host are skipped; None if it becomes NULL. */
  function PathOffset(s: seq<char>): (r: Option<nat>)
    ensures r.Some? ==> r.value <= |s|
  {
    match SkipScheme(s, "http://")
    case None => None
    case Some(i) =>
      match SkipScheme(s[i..], "https://")
      case None => None
      case Some(j) => Some(i + j)
  }

  const JUDGE: seq<char> := "judge.html"

  /** strcat(m_url, "judge.html") for an m_url of length 1 */
  function AppendJudge(buf: seq<char>, url: nat): (buf': seq<char>)
    ensures |buf'| == |buf|
    ensures forall i | 0 <= i < |buf| && (i <= url || url + 2 + |JUDGE| <= i) :: buf'[i] == buf[i]
    ensures url + 2 + |JUDGE| <= |buf| ==> buf'[url + 1..url + 1 + |JUDGE|] == JUDGE && buf'[url + 1 + |JUDGE|] == NUL
  {
    seq(|buf|, i requires 0 <= i < |buf| =>
      if url + 2 + |JUDGE| <= |buf| && url < i < url + 2 + |JUDGE| then (JUDGE + [NUL])[i - url - 1] else buf[i])
  }

  /** A parser leaves the cursors alone. */
  predicate SameCursors(a: Conn, b: Conn) {
    |a.buf| == |b.buf| && a.readIdx == b.readIdx && a.checkedIdx == b.checkedIdx && a.startLine == b.startLine
  }

  /** How far parse_request_line gets with line text `t`, and the offsets at which it puts its pointers. */
  datatype RequestLineScan =
    | NoBlank
    | BadMethod(methodEnd: nat)
    | NoVersion(verb: Method, methodEnd: nat, target: nat)
    | BadVersion(verb: Method, methodEnd: nat, target: nat, targetEnd: nat, version: nat)
    | BadTarget(verb: Method, methodEnd: nat, moved: Option<nat>, targetEnd: nat, version: nat)
    | Good(verb: Method, methodEnd: nat, url: nat, targetEnd: nat, version: nat)

  function VerbOf(s: seq<char>): Option<Method> {
    if EqualFold(s, "GET") then Some(GET) else if EqualFold(s, "POST") then Some(POST) else None
  }

  /** The offsets of a scan of `t` are in order and inside it. */
  predicate Placed(r: RequestLineScan, t: seq<char>) {
    match r
    case NoBlank => true
    case BadMethod(i) => i < |t|
    case NoVersion(_, i, u) => i < u <= |t|
    case BadVersion(_, i, u, k, v) => i < u <= k < v <= |t|
    case BadTarget(_, i, moved, k, v) => i < k < v <= |t| && (moved.Some? ==> i < moved.value <= k)
    case Good(_, i, url, k, v) => i < url < k < v && v + |"HTTP/1.1"| == |t| && t[url] == '/'
  }

  function ScanRequestLine(t: seq<char>): (r: RequestLineScan)
    ensures Placed(r, t)
  {
    var i := FirstOf(t, BLANKS);
    if i == |t| then NoBlank
    else
      match VerbOf(t[..i])
      case None => BadMethod(i)
      case Some(verb) => ScanTarget(t, verb, i, i + 1 + Span(t[i + 1..], BLANKS))
  }

  function ScanTarget(t: seq<char>, verb: Method, i: nat, u: nat): (r: RequestLineScan)
    requires i < u <= |t|
    ensures Placed(r, t)
  {
    var k := u + FirstOf(t[u..], BLANKS);
    if k == |t| then NoVersion(verb, i, u) else ScanVersion(t, verb, i, u, k, k + 1 + Span(t[k + 1..], BLANKS))
  }

  function ScanVersion(t: seq<char>, verb: Method, i: nat, u: nat, k: nat, v: nat): (r: RequestLineScan)
    requires i < u <= k < v <= |t|
    ensures Placed(r, t)
  {
    if !EqualFold(t[v..], "HTTP/1.1") then BadVersion(verb, i, u, k, v)
    else
      match PathOffset(t[u..k])
      case None => BadTarget(verb, i, None, k, v)
      case Some(p) =>
        if u + p < k && t[u + p] == '/' then Good(verb, i, u + p, k, v) else BadTarget(verb, i, Some(u + p), k, v)
  }

  /** m_url, m_method, cgi and m_version after the scan; the source stores them also when it then fails. */
  function StoreRequestLine(c: Conn, text: nat, scan: RequestLineScan): Conn {
    match scan
    case NoBlank => c.(url := None)
    case BadMethod(i) => c.(url := Some(text + i + 1))
    case NoVersion(verb, i, u) => c.(verb := verb, cgi := c.cgi || verb == POST, url := Some(text + u), version := None)
    case BadVersion(verb, i, u, k, v) =>
      c.(verb := verb, cgi := c.cgi || verb == POST, url := Some(text + u), version := Some(text + v))
    case BadTarget(verb, i, moved, k, v) =>
      c.(verb := verb, cgi := c.cgi || verb == POST, url := if moved.None? then None else Some(text + moved.value),
         version := Some(text + v))
    case Good(verb, i, url, k, v) =>
      c.(verb := verb, cgi := c.cgi || verb == POST, url := Some(text + url), version := Some(text + v),
        state := Header)
  }

  /** The NULs written over the two delimiters, and the page that replaces the URL "/" */
  function CutRequestLine(buf: seq<char>, text: nat, scan: RequestLineScan): (buf': seq<char>)
    ensures |buf'| == |buf|
  {
    if scan.NoBlank? || text + scan.methodEnd >= |buf| then buf
    else
      var buf := buf[text + scan.methodEnd := NUL];
      if scan.BadMethod? || scan.NoVersion? || text + scan.targetEnd >= |buf| then buf
      else
        var buf := buf[text + scan.targetEnd := NUL];
        if scan.Good? && scan.url + 1 == scan.targetEnd then AppendJudge(buf, text + scan.url) else buf
  }

  function ApplyRequestLine(c: Conn, text: nat, scan: RequestLineScan): (r: (HttpCode, Conn))
    ensures SameCursors(c, r.1) && r.0 in {NoRequest, BadRequest}
  {
    (if scan.Good? then NoRequest else BadRequest,
     StoreRequestLine(c, text, scan).(buf := CutRequestLine(c.buf, text, scan)))
  }

  function ParseRequestLine(c: Conn, text: nat): (r: (HttpCode, Conn))
    requires text < |c.buf|
    ensures SameCursors(c, r.1) && r.0 in {NoRequest, BadRequest}
  {
    ApplyRequestLine(c, text, ScanRequestLine(CStr(c.buf, text)))
  }

  /** What parse_headers recognises in line text `t` */
  datatype HeaderField = Blank | KeepAlive | Length(n: int) | Host(offset: nat) | Ignored

  function ScanHeader(t: seq<char>): (h: HeaderField)
    ensures h == Blank <==> t == []
    ensures h.Host? ==> h.offset <= |t|
  {
    if t == [] then Blank
    else if StartsFold(t, "Connection:") then
      if EqualFold(TrimLeft(t[11..]), "keep-alive") then KeepAlive else Ignored
    else if StartsFold(t, "Content-length:") then Length(ToInt32(Atol(TrimLeft(t[15..]))))
    else if StartsFold(t, "Host:") then Host(5 + Span(t[5..], BLANKS))
    else Ignored
  }

  function StoreHeader(c: Conn, text: nat, h: HeaderField): (r: (HttpCode, Conn))
    ensures SameCursors(c, r.1) && r.0 in {NoRequest, GetRequest}
  {
    match h
    case Blank => if c.contentLength != 0 then (NoRequest, c.(state := Content)) else (GetRequest, c)
    case KeepAlive => (NoRequest, c.(linger := true))
    case Length(n) => (NoRequest, c.(contentLength := n))
    case Host(offset) => (NoRequest, c.(host := Some(text + offset)))
    case Ignored => (NoRequest, c)
  }

  function ParseHeaders(c: Conn, text: nat): (r: (HttpCode, Conn))
    requires text < |c.buf|
    ensures SameCursors(c, r.1) && r.0 in {NoRequest, GetRequest}
  {
    StoreHeader(c, text, ScanHeader(CStr(c.buf, text)))
  }

  /** Whether the whole body has arrived, as parse_content tests it */
  predicate BodyArrived(c: Conn) {
    c.readIdx >= c.contentLength + c.checkedIdx
  }

  /** The terminating NUL is represented only where it falls inside m_read_buf. */
  function ParseContent(c: Conn, text: nat): (r: (HttpCode, Conn))
    ensures |r.1.buf| == |c.buf|
    ensures r.0 == GetRequest <==> BodyArrived(c)
    ensures r.0 == GetRequest || r == (NoRequest, c)
    ensures r.1 == c.(buf := r.1.buf, body := r.1.body)
  {
    if BodyArrived(c) then
      var end := text + c.contentLength;
      (GetRequest, c.(buf := if 0 <= end < |c.buf| then c.buf[end := NUL] else c.buf, body := Some(text)))
    else (NoRequest, c)
  }

  // ----- the loop of process_read -----

  /** One loop body: the line [m_start_line, m_checked_idx) goes to the parser of the current state. */
  function Dispatch(c: Conn): (r: (HttpCode, Conn))
    requires InBounds(c) && (c.state != Content ==> c.startLine < c.checkedIdx)
    ensures InBounds(r.1)
    ensures r.1.readIdx == c.readIdx && r.1.checkedIdx == c.checkedIdx == r.1.startLine
    ensures c.state == Content ==> r.1.state == Content && r.1.contentLength == c.contentLength
    ensures c.state == Content && r.0 == NoRequest ==> r.1 == c.(startLine := c.checkedIdx)
    ensures r.0 in {NoRequest, GetRequest, BadRequest}
  {
    var next := c.(startLine := c.checkedIdx);
    match c.state
    case RequestLine => ParseRequestLine(next, c.startLine)
    case Header => ParseHeaders(next, c.startLine)
    case Content => ParseContent(next, c.startLine)
  }

  /** The loop test as coded, or one that leaves a partly arrived body unscanned. */
  datatype LoopTest = AsWritten | Repaired

  /** process_read, from a loop head where line_status is LINE_OK */
  function ProcessRead(c: Conn, test: LoopTest): (r: (HttpCode, Conn))
    requires InBounds(c)
    ensures InBounds(r.1) && r.1.readIdx == c.readIdx && c.checkedIdx <= r.1.checkedIdx
    ensures r.0 in {NoRequest, GetRequest, BadRequest}
    decreases c.readIdx - c.checkedIdx
  {
    var (status, line) := if c.state == Content then (LineOk, c) else ParseLine(c);
    if status != LineOk then (NoRequest, line)
    else
      var (code, next) := Dispatch(line);
      if code != NoRequest then (code, next)
      else if c.state != Content then ProcessRead(next, test)
      else if test == Repaired then (NoRequest, next)
      else Rescan(next)
  }

  /** process_read, from the loop test right after an incomplete body has set LINE_OPEN */
  function Rescan(c: Conn): (r: (HttpCode, Conn))
    requires InBounds(c) && c.state == Content
    ensures InBounds(r.1) && r.1.readIdx == c.readIdx && c.checkedIdx <= r.1.checkedIdx
    ensures r.0 in {NoRequest, GetRequest}
    decreases c.readIdx - c.checkedIdx
  {
    var (status, line) := ParseLine(c);
    if status != LineOk then (NoRequest, line)
    else
      var (code, next) := Dispatch(line);
      if code != NoRequest then (code, next) else Rescan(next)
  }
}
