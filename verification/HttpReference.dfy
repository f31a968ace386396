/**
 A parser for whole requests on plain sequences: split at CR LF, read the request line, fold the header
 lines up to the first empty one, take Content-length bytes. It has no buffer, no cursors and no state
 between calls. process_read is proved to compute it.
*/
module HttpReference {
  import opened CString
  import opened Wrappers
  import opened HttpParser
  import opened HttpScan
  import opened HttpChunks

  datatype Request = Request(
    verb: Method,
    url: seq<char>,
    host: Option<seq<char>>,
    contentLength: int,
    linger: bool,
    body: seq<char>)

  /** An input that ends in the header, or in the body of which `part` has arrived; a bad or a whole request */
  datatype Parsed = Incomplete | AwaitingBody(part: seq<char>) | Malformed | Complete(request: Request)

  /** The first line and what follows it, unless another line end comes first or the line is not finished */
  function SplitLine(input: seq<char>): (r: Option<(seq<char>, seq<char>)>)
    ensures r.Some? ==> |r.value.1| < |input|
  {
    var i := FirstOf(input, EOLS);
    if i + 1 < |input| && input[i] == CR && input[i + 1] == LF then Some((input[..i], input[i + 2..])) else None
  }

  /** What the C string functions see of `s` */
  function Text(s: seq<char>): (t: seq<char>)
    ensures |t| <= |s|
  {
    s[..FirstOf(s, {NUL})]
  }

  /** The requested path; "/" stands for the page judge.html. */
  function Target(t: seq<char>, scan: RequestLineScan): seq<char>
    requires scan.Good? && scan.url < scan.targetEnd <= |t|
  {
    if scan.url + 1 == scan.targetEnd then "/" + JUDGE else t[scan.url..scan.targetEnd]
  }

  function ReadRequestLine(t: seq<char>): Option<Request> {
    var scan := ScanRequestLine(t);
    if scan.Good? then Some(Request(scan.verb, Target(t, scan), None, 0, false, "")) else None
  }

  function AddField(r: Request, t: seq<char>, h: HeaderField): Request
    requires h.Host? ==> h.offset <= |t|
  {
    match h
    case KeepAlive => r.(linger := true)
    case Length(n) => r.(contentLength := n)
    case Host(offset) => r.(host := Some(t[offset..]))
    case _ => r
  }

  function AddHeader(r: Request, t: seq<char>): Request {
    AddField(r, t, ScanHeader(t))
  }

  function ReadBody(r: Request, input: seq<char>): Parsed {
    if r.contentLength == 0 then Complete(r)
    else if |input| < r.contentLength then AwaitingBody(input)
    else if r.contentLength < 0 then Complete(r)
    else Complete(r.(body := Text(input[..r.contentLength])))
  }

  function ReadHeaders(r: Request, input: seq<char>): Parsed
    decreases |input|
  {
    match SplitLine(input)
    case None => Incomplete
    case Some((line, rest)) =>
      if Text(line) == [] then ReadBody(r, rest) else ReadHeaders(AddHeader(r, Text(line)), rest)
  }

  function ParseRequest(input: seq<char>): Parsed {
    match SplitLine(input)
    case None => Incomplete
    case Some((line, rest)) =>
      match ReadRequestLine(Text(line))
      case None => Malformed
      case Some(r) => ReadHeaders(r, rest)
  }

  // ----- process_read computes ParseRequest -----

  /** The bytes received and not yet scanned */
  function Unread(c: Conn): (s: seq<char>)
    requires InBounds(c)
  {
    c.buf[c.checkedIdx..c.readIdx]
  }

  lemma UnreadScan(c: Conn)
    requires Valid(c)
    ensures FirstOf(Unread(c), EOLS) == ScanEnd(c) - c.checkedIdx
  {
    var q := ScanEnd(c);
    ScanEndIs(c);
    assert forall i | 0 <= i < |Unread(c)| :: Unread(c)[i] == c.buf[c.checkedIdx + i];
    FirstOfUnique(Unread(c), EOLS, q - c.checkedIdx);
  }

  lemma LineOkWhen(c: Conn)
    requires Valid(c)
    ensures var q := ScanEnd(c);
      if q + 1 < c.readIdx && c.buf[q] == CR && c.buf[q + 1] == LF
      then ParseLine(c) == (LineOk, c.(buf := c.buf[q := NUL][q + 1 := NUL], checkedIdx := q + 2))
      else ParseLine(c).0 != LineOk
  {
    LineFeedCaseIsDead(c);
  }

  lemma SplitWhen(c: Conn)
    requires Valid(c)
    ensures var q := ScanEnd(c);
      SplitLine(Unread(c)) ==
        if q + 1 < c.readIdx && c.buf[q] == CR && c.buf[q + 1] == LF
        then Some((Unread(c)[..q - c.checkedIdx], Unread(c)[q + 2 - c.checkedIdx..])) else None
  {
    UnreadScan(c);
    assert forall i | 0 <= i < |Unread(c)| :: Unread(c)[i] == c.buf[c.checkedIdx + i];
  }

  /** parse_line splits the unread bytes as SplitLine does. */
  lemma ParseLineSplits(c: Conn)
    requires Valid(c) && c.startLine == c.checkedIdx
    ensures ParseLine(c).0 == LineOk <==> SplitLine(Unread(c)).Some?
    ensures ParseLine(c).0 == LineOk ==>
      && LineEnded(ParseLine(c).1)
      && CStr(ParseLine(c).1.buf, c.startLine) == Text(SplitLine(Unread(c)).value.0)
      && Unread(ParseLine(c).1) == SplitLine(Unread(c)).value.1
  {
    LineOkWhen(c);
    SplitWhen(c);
    if ParseLine(c).0 == LineOk {
      var q := ScanEnd(c);
      ParseLineKeepsValid(c);
      LineIsText(c, q);
      SameChars(c.buf[q := NUL][q + 1 := NUL][q + 2..c.readIdx], Unread(c)[q + 2 - c.checkedIdx..]);
    }
  }

  lemma LineIsText(c: Conn, q: nat)
    requires InBounds(c) && c.startLine == c.checkedIdx <= q && q + 1 < c.readIdx
    ensures CStr(c.buf[q := NUL][q + 1 := NUL], c.startLine) == Text(Unread(c)[..q - c.checkedIdx])
  {
    var line := Unread(c)[..q - c.checkedIdx];
    var t := Text(line);
    var b := c.buf[q := NUL][q + 1 := NUL];
    assert forall i | 0 <= i < |line| :: line[i] == b[c.startLine + i];
    FirstOfIs(line, {NUL});
    CStrUnique(b, c.startLine, t);
  }

  /** The fields of `c` hold the request `r`, in strings that end before m_checked_idx. */
  ghost predicate Holds(c: Conn, r: Request) {
    && InBounds(c)
    && c.verb == r.verb && c.cgi == (r.verb == POST)
    && c.linger == r.linger && c.contentLength == r.contentLength
    && c.url.Some? && StringAt(c, c.url.value, r.url)
    && (c.host.Some? <==> r.host.Some?)
    && (c.host.Some? ==> StringAt(c, c.host.value, r.host.value))
  }

  ghost predicate StringAt(c: Conn, p: nat, s: seq<char>)
    requires InBounds(c)
  {
    p + |s| < c.checkedIdx && CStr(c.buf, p) == s
  }

  lemma StringStays(c: Conn, c': Conn, p: nat, s: seq<char>)
    requires InBounds(c) && InBounds(c') && StringAt(c, p, s) && c.checkedIdx <= c'.checkedIdx
    requires forall i | 0 <= i < c.checkedIdx :: c'.buf[i] == c.buf[i]
    ensures StringAt(c', p, s)
  {
    CStrFrame(c.buf, c'.buf, p, c.checkedIdx);
  }

  lemma HoldsOn(c: Conn, c': Conn, r: Request)
    requires Holds(c, r) && InBounds(c') && c.checkedIdx <= c'.checkedIdx
    requires forall i | 0 <= i < c.checkedIdx :: c'.buf[i] == c.buf[i]
    requires c'.verb == c.verb && c'.cgi == c.cgi && c'.linger == c.linger && c'.contentLength == c.contentLength
    requires c'.url == c.url && c'.host == c.host
    ensures Holds(c', r)
  {
    StringStays(c, c', c.url.value, r.url);
    if c.host.Some? {
      StringStays(c, c', c.host.value, r.host.value);
    }
  }

  lemma StoredFieldHolds(c: Conn, r: Request, text: nat, t: seq<char>, h: HeaderField)
    requires Holds(c, r) && h != Blank
    requires h.Host? ==> h.offset <= |t| && StringAt(c, text + h.offset, t[h.offset..])
    ensures StoreHeader(c, text, h).0 == NoRequest
    ensures Holds(StoreHeader(c, text, h).1, AddField(r, t, h))
  {
  }

  lemma DispatchHeader(c: Conn)
    requires LineEnded(c) && c.state == Header
    ensures Dispatch(c) == StoreHeader(c.(startLine := c.checkedIdx), c.startLine, ScanHeader(CStr(c.buf, c.startLine)))
  {
  }

  /** A header line changes the fields as AddHeader changes the request. */
  lemma HeaderHolds(c: Conn, r: Request)
    requires LineEnded(c) && c.state == Header && Holds(c, r) && CStr(c.buf, c.startLine) != []
    ensures Dispatch(c).0 == NoRequest && Dispatch(c).1.state == Header && Dispatch(c).1.buf == c.buf
    ensures Holds(Dispatch(c).1, AddHeader(r, CStr(c.buf, c.startLine)))
  {
    LineText(c);
    DispatchHeader(c);
    StoredHeaderHolds(c, r, CStr(c.buf, c.startLine), ScanHeader(CStr(c.buf, c.startLine)));
  }

  lemma StoredHeaderHolds(c: Conn, r: Request, t: seq<char>, h: HeaderField)
    requires LineEnded(c) && c.state == Header && Holds(c, r) && CStr(c.buf, c.startLine) == t
    requires c.startLine + |t| + 2 <= c.checkedIdx
    requires h != Blank && (h.Host? ==> h.offset <= |t|)
    ensures var (code, next) := StoreHeader(c.(startLine := c.checkedIdx), c.startLine, h);
      code == NoRequest && next.state == Header && next.buf == c.buf && Holds(next, AddField(r, t, h))
  {
    if h.Host? {
      Suffix(c.buf, c.startLine, h.offset);
    }
    var next := c.(startLine := c.checkedIdx);
    HoldsOn(c, next, r);
    StoredFieldHolds(next, r, c.startLine, t, h);
  }

  /** After the cuts m_url points at the target, or at the page that replaces "/". */
  lemma UrlString(b: seq<char>, text: nat, t: seq<char>, scan: RequestLineScan)
    requires text + |t| + 2 <= |b| && scan.Good? && Placed(scan, t)
    requires forall i | 0 <= i < |t| :: b[text + i] == t[i] && t[i] != NUL
    ensures CStr(CutRequestLine(b, text, scan), text + scan.url) == Target(t, scan)
  {
    var p := text + scan.url;
    var cut := b[text + scan.methodEnd := NUL][text + scan.targetEnd := NUL];
    if scan.url + 1 == scan.targetEnd {
      JudgeString(cut, p);
    } else {
      var target := t[scan.url..scan.targetEnd];
      SameChars(cut[p..p + |target|], target);
      CStrUnique(cut, p, target);
    }
  }

  lemma JudgeString(b: seq<char>, p: nat)
    requires p + 2 + |JUDGE| <= |b| && b[p] == '/'
    ensures CStr(AppendJudge(b, p), p) == "/" + JUDGE
  {
    var r := AppendJudge(b, p);
    assert r[p..p + 1 + |JUDGE|] == [r[p]] + r[p + 1..p + 1 + |JUDGE|];
    CStrUnique(r, p, "/" + JUDGE);
  }

  /** The fields of a connection that has not read a request line yet */
  predicate Untouched(c: Conn) {
    c.state == RequestLine && c.verb == GET && !c.cgi && c.host == None && c.contentLength == 0 && !c.linger
  }

  lemma RequestLineHolds(c: Conn)
    requires LineEnded(c) && Untouched(c)
    ensures var r := ReadRequestLine(CStr(c.buf, c.startLine));
      if r == None then Dispatch(c).0 == BadRequest
      else Dispatch(c).0 == NoRequest && Dispatch(c).1.state == Header && Holds(Dispatch(c).1, r.value)
  {
    LineText(c);
    var t := CStr(c.buf, c.startLine);
    var scan := ScanRequestLine(t);
    if scan.Good? {
      StoredRequestLineHolds(c, t, scan);
    }
  }

  lemma StoredRequestLineHolds(c: Conn, t: seq<char>, scan: RequestLineScan)
    requires LineEnded(c) && Untouched(c) && CStr(c.buf, c.startLine) == t && c.startLine + |t| + 2 <= c.checkedIdx
    requires scan.Good? && Placed(scan, t)
    ensures Holds(StoreRequestLine(c.(startLine := c.checkedIdx), c.startLine,
      scan).(buf := CutRequestLine(c.buf, c.startLine, scan)),
                  Request(scan.verb, Target(t, scan), None, 0, false, ""))
  {
    CStrIs(c.buf, c.startLine);
    UrlString(c.buf, c.startLine, t, scan);
  }

  /** The NUL that parse_content writes at index `end`, if that is inside the buffer */
  function Terminate(b: seq<char>, end: int): seq<char> {
    if 0 <= end < |b| then b[end := NUL] else b
  }

  /**
   The fields of `c` hold the parsed request, and its body is the string at m_string. A negative length has
   put the NUL before the body, where it may have cut one of the other strings.
  */
  ghost predicate Answers(c: Conn, r: Request) {
    if r.contentLength >= 0 then
      && Holds(c, r)
      && (r.contentLength > 0 ==> c.body == Some(c.checkedIdx) && CStr(c.buf, c.checkedIdx) == r.body)
    else c.body == Some(c.checkedIdx) && exists b :: HeldBefore(c, b, r)
  }

  ghost predicate HeldBefore(c: Conn, b: seq<char>, r: Request) {
    |b| == |c.buf| && Holds(c.(buf := b), r) && c.buf == Terminate(b, c.checkedIdx + r.contentLength)
  }

  /** What process_read must have done on input that parses to `p` */
  ghost predicate Computes(result: (HttpCode, Conn), p: Parsed) {
    match p
    case Incomplete => result.0 == NoRequest
    case AwaitingBody(_) => result.0 == NoRequest
    case Malformed => result.0 == BadRequest
    case Complete(r) => result.0 == GetRequest && Answers(result.1, r)
  }

  /** The parser waits for the rest of a body exactly if `p` does, and has scanned nothing of what has arrived. */
  ghost predicate Awaits(result: (HttpCode, Conn), p: Parsed) {
    && InBounds(result.1)
    && (p.AwaitingBody? <==> result.0 == NoRequest && result.1.state == Content)
    && (p.AwaitingBody? ==> Unread(result.1) == p.part)
  }

  lemma BodyString(c: Conn, n: nat)
    requires AtLineStart(c) && c.checkedIdx + n <= c.readIdx
    ensures CStr(Terminate(c.buf, c.checkedIdx + n), c.checkedIdx) == Text(Unread(c)[..n])
  {
    var b := Terminate(c.buf, c.checkedIdx + n);
    var t := Text(Unread(c)[..n]);
    assert forall i | 0 <= i < n :: Unread(c)[..n][i] == b[c.checkedIdx + i];
    FirstOfIs(Unread(c)[..n], {NUL});
    CStrUnique(b, c.checkedIdx, t);
  }

  lemma BodyComputes(c: Conn, r: Request)
    requires AtLineStart(c) && c.state == Content && Holds(c, r) && r.contentLength != 0
    ensures Computes(ProcessRead(c, Repaired), ReadBody(r, Unread(c)))
    ensures Awaits(ProcessRead(c, Repaired), ReadBody(r, Unread(c)))
  {
    if BodyArrived(c) {
      if r.contentLength > 0 {
        BodyAnswers(c, r);
      } else {
        NegativeAnswers(c, r);
      }
    }
  }

  lemma BodyAnswers(c: Conn, r: Request)
    requires AtLineStart(c) && c.state == Content && Holds(c, r) && r.contentLength > 0 && BodyArrived(c)
    ensures Answers(Dispatch(c).1, r.(body := Text(Unread(c)[..r.contentLength])))
  {
    var end := Dispatch(c).1;
    HoldsOn(c, end, r);
    BodyString(c, r.contentLength);
  }

  lemma NegativeAnswers(c: Conn, r: Request)
    requires AtLineStart(c) && c.state == Content && Holds(c, r) && r.contentLength < 0 && BodyArrived(c)
    ensures Answers(Dispatch(c).1, r)
  {
    var end := Dispatch(c).1;
    HoldsOn(c, end.(buf := c.buf), r);
    assert HeldBefore(end, c.buf, r);
  }

  predicate AtLineStart(c: Conn) {
    Valid(c) && c.startLine == c.checkedIdx
  }

  /** A header line takes the parser to the start of the next line with one more field read. */
  lemma HeaderStep(line: Conn, r: Request)
    requires LineEnded(line) && line.state == Header && Holds(line, r) && CStr(line.buf, line.startLine) != []
    ensures var (code, next) := Dispatch(line);
      && code == NoRequest && AtLineStart(next) && next.state == Header
      && Holds(next, AddHeader(r, CStr(line.buf, line.startLine))) && Unread(next) == Unread(line)
  {
    DispatchKeepsValid(line);
    HeaderHolds(line, r);
  }

  lemma LineHolds(c: Conn, r: Request)
    requires Valid(c) && Holds(c, r) && ParseLine(c).0 == LineOk
    ensures Holds(ParseLine(c).1, r)
  {
    ParseLineKeepsValid(c);
    HoldsOn(c, ParseLine(c).1, r);
  }

  /** For the verdict of one call, and for what it then leaves, the loop test as coded makes no difference. */
  lemma CodedVerdict(c: Conn)
    requires InBounds(c)
    ensures var r, r' := ProcessRead(c, Repaired), ProcessRead(c, AsWritten);
      r'.0 == r.0 && (r.0 != NoRequest ==> r' == r)
  {
    hide ProcessRead, Rescan;
    AsWrittenRescans(c);
    BodyStillIncomplete(c);
    var r := ProcessRead(c, Repaired);
    if r.0 == NoRequest && r.1.state == Content {
      RescanStaysInBody(r.1);
    }
  }

  lemma CodedComputes(c: Conn, p: Parsed)
    requires InBounds(c) && Computes(ProcessRead(c, Repaired), p)
    ensures Computes(ProcessRead(c, AsWritten), p)
  {
    hide ProcessRead, Answers;
    CodedVerdict(c);
  }

  lemma {:induction false} HeadersCompute(c: Conn, r: Request)
    requires AtLineStart(c) && c.state == Header && Holds(c, r)
    ensures Computes(ProcessRead(c, Repaired), ReadHeaders(r, Unread(c)))
    ensures Awaits(ProcessRead(c, Repaired), ReadHeaders(r, Unread(c)))
    ensures Computes(ProcessRead(c, AsWritten), ReadHeaders(r, Unread(c)))
    decreases c.readIdx - c.checkedIdx
  {
    hide Holds, ProcessRead, Dispatch, CStr, SplitLine, AddHeader, Unread, Text, HttpParser.ParseLine;
    ReadALine(c);
    ParseLineSplits(c);
    var (status, line) := ParseLine(c);
    if status == LineOk {
      LineHolds(c, r);
      var t := CStr(line.buf, line.startLine);
      if t == [] {
        EmptyLineComputes(line, r);
      } else {
        HeaderStep(line, r);
        HeadersCompute(Dispatch(line).1, AddHeader(r, t));
      }
    }
    CodedComputes(c, ReadHeaders(r, Unread(c)));
  }

  lemma EmptyLineComputes(line: Conn, r: Request)
    requires LineEnded(line) && line.state == Header && Holds(line, r) && CStr(line.buf, line.startLine) == []
    ensures Computes(AfterLine(line), ReadBody(r, Unread(line))) && Awaits(AfterLine(line), ReadBody(r, Unread(line)))
  {
    var next := line.(startLine := line.checkedIdx);
    DispatchHeader(line);
    HoldsOn(line, next, r);
    if r.contentLength != 0 {
      BodyComputes(next.(state := Content), r);
    }
  }

  /** A good request line takes the parser to the start of the header with its parts read. */
  lemma RequestLineStep(line: Conn)
    requires LineEnded(line) && Untouched(line)
    ensures var r := ReadRequestLine(CStr(line.buf, line.startLine));
      var (code, next) := Dispatch(line);
      if r == None then code == BadRequest
      else
        && code == NoRequest && AtLineStart(next) && next.state == Header
        && Holds(next, r.value) && Unread(next) == Unread(line)
  {
    RequestLineHolds(line);
    DispatchKeepsValid(line);
    SameChars(Unread(Dispatch(line).1), Unread(line));
  }

  /** One call of process_read on a whole input computes ParseRequest. */
  lemma ProcessReadComputes(c: Conn)
    requires AtLineStart(c) && Untouched(c)
    ensures Computes(ProcessRead(c, Repaired), ParseRequest(Unread(c)))
    ensures Awaits(ProcessRead(c, Repaired), ParseRequest(Unread(c)))
    ensures Computes(ProcessRead(c, AsWritten), ParseRequest(Unread(c)))
  {
    hide Holds, ProcessRead, Dispatch, CStr, SplitLine, ReadRequestLine, Unread, Text, HttpParser.ParseLine;
    ReadALine(c);
    ParseLineSplits(c);
    var (status, line) := ParseLine(c);
    if status == LineOk {
      RequestLineStep(line);
      var r := ReadRequestLine(CStr(line.buf, line.startLine));
      if r.Some? {
        HeadersCompute(Dispatch(line).1, r.value);
      }
    }
    CodedComputes(c, ParseRequest(Unread(c)));
  }

  // ----- the same for input that arrives in any number of reads -----

  /** The body of `c` has arrived and ends in a NUL. */
  ghost predicate Terminated(c: Conn) {
    && InBounds(c) && c.body.Some? && c.body.value <= c.checkedIdx
    && c.body.value + c.contentLength <= c.readIdx
    && (0 <= c.body.value + c.contentLength < READ_BUFFER_SIZE ==> c.buf[c.body.value + c.contentLength] == NUL)
  }

  /** A verdict on a body leaves its terminating NUL in place. */
  lemma {:induction false} BodyIsTerminated(c: Conn)
    requires InBounds(c)
    ensures var (code, r) := ProcessRead(c, Repaired); code == GetRequest && r.state == Content ==> Terminated(r)
    decreases c.readIdx - c.checkedIdx
  {
    if c.state != Content && ParseLine(c).0 == LineOk {
      var line := ParseLine(c).1;
      if Dispatch(line).0 == NoRequest {
        BodyIsTerminated(Dispatch(line).1);
      } else {
        VerdictOnLine(line);
      }
    }
  }

  /** What the whole input answers, the part that led to the verdict answers. */
  lemma AnswersBeforeRest(c: Conn, d: seq<char>, r: Request)
    requires InBounds(c) && c.readIdx + |d| <= READ_BUFFER_SIZE && Answers(AppendRest(c, d), r)
    requires if c.state == Content then Terminated(c) else r.contentLength == 0
    ensures Answers(c, r)
  {
    var whole := AppendRest(c, d);
    if r.contentLength >= 0 {
      assert forall i | 0 <= i < c.readIdx :: whole.buf[i] == c.buf[i];
      HoldsOn(whole.(readIdx := c.readIdx), c, r);
      if r.contentLength > 0 {
        BodyBeforeRest(c, d);
      }
    } else {
      var b :| HeldBefore(whole, b, r);
      HeldBeforeRest(c, d, r, b);
    }
  }

  lemma BodyBeforeRest(c: Conn, d: seq<char>)
    requires InBounds(c) && c.readIdx + |d| <= READ_BUFFER_SIZE && c.state == Content && Terminated(c)
    requires c.contentLength > 0
    ensures CStr(AppendRest(c, d).buf, c.body.value) == CStr(c.buf, c.body.value)
  {
    var whole := AppendRest(c, d).buf;
    var end := c.body.value + c.contentLength;
    if end < READ_BUFFER_SIZE {
      assert forall i | 0 <= i <= end :: whole[i] == c.buf[i];
      CStrIs(c.buf, c.body.value);
      CStrFrame(c.buf, whole, c.body.value, end + 1);
    } else {
      SameChars(whole, c.buf);
    }
  }

  lemma HeldBeforeRest(c: Conn, d: seq<char>, r: Request, b: seq<char>)
    requires InBounds(c) && c.readIdx + |d| <= READ_BUFFER_SIZE && c.state == Content && Terminated(c)
    requires c.body == Some(c.checkedIdx) && r.contentLength < 0 && HeldBefore(AppendRest(c, d), b, r)
    ensures exists b' :: HeldBefore(c, b', r)
  {
    var whole := AppendRest(c, d);
    var b' := seq(|b|, i requires 0 <= i < |b| => if i < c.readIdx then b[i] else c.buf[i]);
    var end := c.checkedIdx + r.contentLength;
    assert whole.contentLength == r.contentLength;
    HoldsOn(whole.(buf := b, readIdx := c.readIdx), c.(buf := b'), r);
    forall i | 0 <= i < |c.buf| ensures c.buf[i] == Terminate(b', end)[i] {
      if i < c.readIdx && i != end {
        assert c.buf[i] == whole.buf[i] == b[i];
      }
    }
    SameChars(c.buf, Terminate(b', end));
    assert HeldBefore(c, b', r);
  }

  /** A verdict outside the body phase is given on a request without a body. */
  lemma {:induction false} VerdictWithoutBody(c: Conn)
    requires InBounds(c)
    ensures var (code, r) := ProcessRead(c, Repaired); code == GetRequest && r.state != Content ==> r.contentLength == 0
    decreases c.readIdx - c.checkedIdx
  {
    if c.state != Content && ParseLine(c).0 == LineOk {
      var line := ParseLine(c).1;
      if Dispatch(line).0 == NoRequest {
        VerdictWithoutBody(Dispatch(line).1);
      }
    }
  }

  lemma VerdictComputes(result: (HttpCode, Conn), d: seq<char>, p: Parsed)
    requires result.0 != NoRequest && InBounds(result.1) && result.1.readIdx + |d| <= READ_BUFFER_SIZE
    requires result.0 == GetRequest ==> if result.1.state == Content then Terminated(result.1)
      else result.1.contentLength == 0
    requires Computes((result.0, AppendRest(result.1, d)), p)
    ensures Computes(result, p)
  {
    if p.Complete? {
      AnswersBeforeRest(result.1, d, p.request);
    }
  }

  /** However the input is cut, the repaired parser gives the verdict and the fields that ParseRequest prescribes. */
  lemma RepairedComputes(c: Conn, chunks: seq<seq<char>>)
    requires Idle(c) && Fits(c, chunks) && chunks != []
    ensures var end := Serve(c, chunks, Repaired);
      Computes((end.code, end.conn), ParseRequest(Flatten(chunks)))
  {
    WholeComputes(c, chunks);
    RepairedChunkIndependence(c, chunks);
    var end := Serve(c, chunks, Repaired);
    if end.code != NoRequest {
      ServeVerdict(c, chunks);
      VerdictComputes((end.code, end.conn), Flatten(end.rest), ParseRequest(Flatten(chunks)));
    }
  }

  lemma {:induction false} ServeVerdict(c: Conn, chunks: seq<seq<char>>)
    requires InBounds(c) && Fits(c, chunks)
    ensures var end := Serve(c, chunks, Repaired);
      end.code == GetRequest ==> if end.conn.state == Content then Terminated(end.conn) else end.conn.contentLength == 0
    decreases |chunks|
  {
    if chunks != [] {
      ServeFirst(c, chunks, Repaired);
      BodyIsTerminated(Feed(c, chunks[0]));
      VerdictWithoutBody(Feed(c, chunks[0]));
      var (code, r) := ProcessRead(Feed(c, chunks[0]), Repaired);
      if code == NoRequest {
        ServeVerdict(r, chunks[1..]);
      }
    }
  }

  /** The code as written gives the verdict of the repaired parser if no cut makes it scan part of a body. */
  lemma {:induction false} SameVerdict(c: Conn, chunks: seq<seq<char>>)
    requires Settled(c) && Fits(c, chunks) && CutsOutsideBody(c, chunks)
    ensures var end := Serve(c, chunks, Repaired);
      var end' := Serve(c, chunks, AsWritten);
      end'.code == end.code && (end.code != NoRequest ==> end' == end)
    decreases |chunks|
  {
    if chunks != [] {
      ServeFirst(c, chunks, Repaired);
      ServeFirst(c, chunks, AsWritten);
      FeedValid(c, chunks[0]);
      AgreesUnlessBodyScanned(Feed(c, chunks[0]));
      RepairedKeepsSettled(Feed(c, chunks[0]));
      var r := ProcessRead(Feed(c, chunks[0]), Repaired);
      if |chunks| == 1 {
        LastReadEnds(c, chunks, Repaired);
        LastReadEnds(c, chunks, AsWritten);
      } else {
        CutsFirst(c, chunks);
        if r.0 == NoRequest {
          SameVerdict(r.1, chunks[1..]);
        }
      }
    }
  }

  lemma LastReadEnds(c: Conn, chunks: seq<seq<char>>, test: LoopTest)
    requires InBounds(c) && Fits(c, chunks) && |chunks| == 1
    ensures var (code, r) := ProcessRead(Feed(c, chunks[0]), test);
      Serve(c, chunks, test) == Outcome(code, r, [])
  {
    assert chunks[1..] == [];
    ServeFirst(c, chunks, test);
  }

  // ----- the code as written, and where the input is cut -----

  /** The input ends inside a body, and parse_line would not stop at the first byte of that body. */
  predicate EndsInsideBody(input: seq<char>) {
    match ParseRequest(input)
    case AwaitingBody(part) =>
      part != [] && part[0] != LF && (part[0] == CR ==> |part| > 1 && part[1] == LF)
    case _ => false
  }

  /** No cut between two reads leaves an input that ends inside a body. */
  ghost predicate CutsAreSafe(chunks: seq<seq<char>>) {
    forall k | 0 < k < |chunks| :: !EndsInsideBody(Flatten(chunks[..k]))
  }

  /** A connection that waits for its next request */
  predicate Idle(c: Conn) {
    Settled(c) && Untouched(c) && c.readIdx == c.startLine
  }

  lemma UnreadFed(c: Conn, d: seq<char>)
    requires InBounds(c) && c.checkedIdx == c.readIdx && c.readIdx + |d| <= READ_BUFFER_SIZE
    ensures Unread(Feed(c, d)) == d
  {
    var u := Unread(Feed(c, d));
    assert |u| == |d|;
    assert forall i | 0 <= i < |d| :: u[i] == Feed(c, d).buf[c.readIdx + i] == d[i];
  }

  lemma WholeComputes(c: Conn, chunks: seq<seq<char>>)
    requires Idle(c) && Fits(c, chunks)
    ensures var whole := ServeWhole(c, chunks, Repaired);
      Computes(whole, ParseRequest(Flatten(chunks))) && Awaits(whole, ParseRequest(Flatten(chunks)))
  {
    var whole := Feed(c, Flatten(chunks));
    FeedValid(c, Flatten(chunks));
    UnreadFed(c, Flatten(chunks));
    ProcessReadComputes(whole);
  }

  lemma SafeCutIs(c: Conn, chunks: seq<seq<char>>, k: nat)
    requires Idle(c) && Fits(c, chunks) && k <= |chunks|
    ensures SafeCut(c, chunks, k) <==> !EndsInsideBody(Flatten(chunks[..k]))
  {
    hide ServeWhole, ParseRequest, Computes;
    FlattenTake(chunks, k);
    WholeComputes(c, chunks[..k]);
    var end := ServeWhole(c, chunks[..k], Repaired).1;
    assert forall i | 0 <= i < |Unread(end)| :: Unread(end)[i] == end.buf[end.checkedIdx + i];
  }

  lemma SafeCuts(c: Conn, chunks: seq<seq<char>>)
    requires Idle(c) && Fits(c, chunks)
    ensures CutsOutsideBody(c, chunks) <==> CutsAreSafe(chunks)
  {
    forall k | 0 < k < |chunks| ensures SafeCut(c, chunks, k) <==> !EndsInsideBody(Flatten(chunks[..k])) {
      SafeCutIs(c, chunks, k);
    }
  }

  /** However the input is cut outside the body, the code as written computes ParseRequest. */
  lemma AsWrittenComputes(c: Conn, chunks: seq<seq<char>>)
    requires Idle(c) && Fits(c, chunks) && chunks != []
    requires CutsAreSafe(chunks)
    ensures var end := Serve(c, chunks, AsWritten);
      Computes((end.code, end.conn), ParseRequest(Flatten(chunks)))
  {
    SafeCuts(c, chunks);
    RepairedComputes(c, chunks);
    SameVerdict(c, chunks);
  }

  /**
   On every input that decides a request, the code as written is independent of the cuts exactly when no
   cut falls inside the body; the condition speaks of the bytes alone.
  */
  lemma IndependentExactly(c: Conn, chunks: seq<seq<char>>)
    requires Idle(c) && Fits(c, chunks) && chunks != []
    ensures ParseRequest(Flatten(chunks)).Malformed? || ParseRequest(Flatten(chunks)).Complete? ==>
      (SameEnd(Serve(c, chunks, AsWritten), ServeWhole(c, chunks, AsWritten)) <==> CutsAreSafe(chunks))
  {
    SafeCuts(c, chunks);
    WholeComputes(c, chunks);
    AsWrittenRescans(Feed(c, Flatten(chunks)));
    AsWrittenExactly(c, chunks);
  }

  /** One whole request, which its last byte completes */
  predicate OneRequest(input: seq<char>) {
    && ParseRequest(input).Complete? && input != []
    && var before := ParseRequest(input[..|input| - 1]);
    before.Incomplete? || before.AwaitingBody?
  }

  /** The code as written answers a request exactly when no cut falls inside its body. */
  lemma AnsweredExactly(c: Conn, chunks: seq<seq<char>>)
    requires Idle(c) && Fits(c, chunks)
    ensures OneRequest(Flatten(chunks)) ==>
      Serve(c, chunks, AsWritten).code == if CutsAreSafe(chunks) then GetRequest else NoRequest
  {
    hide Serve, ParseRequest, JustEnough, CutsAreSafe, CutsOutsideBody, ProcessRead;
    SafeCuts(c, chunks);
    if CutsAreSafe(chunks) && chunks != [] {
      AsWrittenComputes(c, chunks);
    } else if OneRequest(Flatten(chunks)) {
      var before := Flatten(chunks)[..|Flatten(chunks)| - 1];
      assert Flatten([before]) == before + Flatten([]) == before;
      WholeComputes(c, [before]);
      JustEnoughMeans(c, Flatten(chunks));
      ScannedBodyIsNeverAnswered(c, chunks);
    }
  }

  lemma JustEnoughMeans(c: Conn, input: seq<char>)
    requires InBounds(c) && c.readIdx + |input| <= READ_BUFFER_SIZE && input != []
    ensures JustEnough(c, input) <==> ProcessRead(Feed(c, input[..|input| - 1]), Repaired).0 == NoRequest
  {
  }
}
