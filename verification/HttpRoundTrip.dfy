/** Printing a request and parsing it gives the request back. */
module HttpRoundTrip {
  import opened CString
  import opened Wrappers
  import opened HttpParser
  import opened HttpChunks
  import opened HttpReference
  import opened HttpLines

  function PrintLines(lines: seq<seq<char>>): seq<char> {
    if lines == [] then [] else lines[0] + CRLF + PrintLines(lines[1..])
  }

  function PrintVerb(verb: Method): seq<char> {
    if verb == GET then "GET" else "POST"
  }

  function PrintRequestLine(verb: Method, url: seq<char>): seq<char> {
    PrintVerb(verb) + " " + url + " HTTP/1.1"
  }

  /** Section 3 and section 6 of RFC 9112: request line, field lines, empty line, content */
  function PrintRequest(verb: Method, url: seq<char>, headers: seq<seq<char>>, content: seq<char>): seq<char> {
    PrintRequestLine(verb, url) + CRLF + PrintLines(headers) + CRLF + content
  }

  /** The header lines taken from left to right */
  function FoldHeaders(r: Request, headers: seq<seq<char>>): Request
    decreases |headers|
  {
    if headers == [] then r else FoldHeaders(AddHeader(r, headers[0]), headers[1..])
  }

  lemma {:induction false} PrintedHeaders(r: Request, headers: seq<seq<char>>, content: seq<char>)
    requires forall i | 0 <= i < |headers| :: Clean(headers[i]) && headers[i] != []
    ensures ReadHeaders(r, PrintLines(headers) + CRLF + content) == ReadBody(FoldHeaders(r, headers), content)
    decreases |headers|
  {
    if headers == [] {
      assert PrintLines(headers) + CRLF + content == [] + CRLF + content;
      SplitPrinted([], content);
    } else {
      var rest := PrintLines(headers[1..]) + CRLF + content;
      assert PrintLines(headers) + CRLF + content == headers[0] + CRLF + rest;
      SplitPrinted(headers[0], rest);
      PrintedHeaders(AddHeader(r, headers[0]), headers[1..], content);
    }
  }

  lemma PathIsTarget(url: seq<char>)
    requires url != [] && url[0] == '/'
    ensures PathOf(url) == Some(if url == "/" then "/judge.html" else url)
  {
    NotScheme(url, "http://");
    NotScheme(url, "https://");
  }

  lemma PrintedVerb(verb: Method)
    ensures MethodOf(PrintVerb(verb)) == Some(verb) && Unblank(PrintVerb(verb)) && Clean(PrintVerb(verb))
  {
  }

  lemma PrintedVersion()
    ensures CaseVariant("HTTP/1.1", "HTTP/1.1") && Clean("HTTP/1.1") && BlankRun(" ")
  {
  }

  /** A printed request is parsed into its parts; "/" is answered with the page judge.html. */
  lemma RoundTrip(verb: Method, url: seq<char>, headers: seq<seq<char>>, content: seq<char>)
    requires url != [] && url[0] == '/' && Unblank(url) && Clean(url)
    requires forall i | 0 <= i < |headers| :: Clean(headers[i]) && headers[i] != []
    ensures ParseRequest(PrintRequest(verb, url, headers, content)) ==
      ReadBody(FoldHeaders(Request(verb, if url == "/" then "/judge.html" else url, None, 0, false, ""), headers),
        content)
  {
    hide ParseRequest, ReadHeaders, ReadBody, FoldHeaders, MethodOf, PathOf, CaseVariant, PrintLines, Clean, Unblank,
        BlankRun;
    var rest := PrintLines(headers) + CRLF + content;
    PathIsTarget(url);
    PrintedVerb(verb);
    PrintedVersion();
    assert PrintRequest(verb, url, headers, content) ==
      PrintVerb(verb) + " " + url + " " + "HTTP/1.1" + ['\r', '\n'] + rest;
    MalformedExactly(PrintVerb(verb), " ", url, " ", "HTTP/1.1", rest);
    PrintedHeaders(Request(verb, if url == "/" then "/judge.html" else url, None, 0, false, ""), headers, content);
  }

  // ----- lines that have no effect -----

  /** The lines that have an effect */
  function Noticed(lines: seq<seq<char>>): seq<seq<char>> {
    if lines == [] then [] else (if Unnoticed(lines[0]) then [] else [lines[0]]) + Noticed(lines[1..])
  }

  lemma {:induction false} NoticedFold(r: Request, lines: seq<seq<char>>)
    ensures FoldHeaders(r, lines) == FoldHeaders(r, Noticed(lines))
    decreases |lines|
  {
    hide Unnoticed, AddHeader;
    if lines != [] {
      if Unnoticed(lines[0]) {
        UnnoticedHasNoEffect(r, lines[0]);
        assert [] + Noticed(lines[1..]) == Noticed(lines[1..]);
        NoticedFold(r, lines[1..]);
      } else {
        NoticedFold(AddHeader(r, lines[0]), lines[1..]);
        FoldOne(r, lines[0], Noticed(lines[1..]));
      }
    }
  }

  /** Lines of a header which, but for lines without effect, are the three that announce these values */
  ghost predicate Announces(headers: seq<seq<char>>, host: seq<char>, linger: bool, length: nat) {
    && (forall i | 0 <= i < |headers| :: Clean(headers[i]) && headers[i] != [])
    && Noticed(headers) == PrintHeaders(host, linger, length)
  }

  lemma AnnouncedFold(r: Request, headers: seq<seq<char>>, host: seq<char>, linger: bool, length: nat)
    requires Announces(headers, host, linger, length)
    requires host == [] || host[0] !in BLANKS
    requires length <= INT_MAX && !r.linger && r.contentLength == 0
    ensures FoldHeaders(r, headers) == r.(host := Some(host), linger := linger, contentLength := length)
  {
    hide PrintHeaders, Noticed;
    NoticedFold(r, headers);
    PrintedHeadersFold(r, host, linger, length);
  }

  // ----- the header lines that the server understands -----

  function PrintHeaders(host: seq<char>, linger: bool, length: nat): seq<seq<char>> {
    ["Host: " + host] + PrintLinger(linger) + PrintLength(length)
  }

  function PrintLinger(linger: bool): seq<seq<char>> {
    if linger then ["Connection: keep-alive"] else []
  }

  function PrintLength(length: nat): seq<seq<char>> {
    if length == 0 then [] else ["Content-Length: " + Decimal(length)]
  }

  lemma DiffersAt(s: seq<char>, prefix: seq<char>, i: nat)
    requires i < |s| && i < |prefix| && Lower(s[i]) != Lower(prefix[i])
    ensures !StartsFold(s, prefix)
  {
    assert |prefix| <= |s| ==> s[..|prefix|][i] == s[i];
  }

  lemma HostLine(host: seq<char>)
    requires host == [] || host[0] !in BLANKS
    ensures ScanHeader("Host: " + host) == Host(6)
  {
    var t := "Host: " + host;
    DiffersAt(t, "Connection:", 0);
    DiffersAt(t, "Content-length:", 0);
    assert t[5..] == " " + host;
    SpanUnique(t[5..], BLANKS, 1);
    assert t[..5] == "Host:";
  }

  lemma KeepAliveLine()
    ensures ScanHeader("Connection: keep-alive") == KeepAlive
  {
    var t := "Connection: keep-alive";
    assert t[..11] == "Connection:";
    assert t[11..] == " keep-alive";
    SpanUnique(t[11..], BLANKS, 1);
    assert TrimLeft(t[11..]) == "keep-alive";
  }

  lemma LengthField(t: seq<char>, v: seq<char>)
    requires StartsFold(t, "Content-length:") && TrimLeft(t[15..]) == v
    ensures ScanHeader(t) == Length(ToInt32(Atol(v)))
  {
    assert Lower(t[..15][3]) == 't' && t[..15][3] == t[3];
    DiffersAt(t, "Connection:", 3);
  }

  lemma LengthLine(n: nat)
    requires n <= INT_MAX
    ensures ScanHeader("Content-Length: " + Decimal(n)) == Length(n)
  {
    hide ScanHeader, Atol, Decimal;
    var t := "Content-Length: " + Decimal(n);
    assert t[15..] == " " + Decimal(n);
    SpanUnique(t[15..], BLANKS, 1);
    assert TrimLeft(t[15..]) == Decimal(n);
    assert t[..15] == "Content-Length:";
    LengthField(t, Decimal(n));
    AtolDecimal(n);
  }

  lemma FoldOne(r: Request, line: seq<char>, rest: seq<seq<char>>)
    ensures FoldHeaders(r, [line] + rest) == FoldHeaders(AddHeader(r, line), rest)
  {
    assert ([line] + rest)[1..] == rest;
  }

  lemma LengthFold(r: Request, length: nat)
    requires length <= INT_MAX && r.contentLength == 0
    ensures FoldHeaders(r, PrintLength(length)) == r.(contentLength := length)
  {
    if length > 0 {
      LengthLine(length);
      FoldOne(r, "Content-Length: " + Decimal(length), []);
      assert PrintLength(length) == ["Content-Length: " + Decimal(length)] + [];
    }
  }

  lemma LingerFold(r: Request, linger: bool, rest: seq<seq<char>>)
    requires !r.linger
    ensures FoldHeaders(r, PrintLinger(linger) + rest) == FoldHeaders(r.(linger := linger), rest)
  {
    if linger {
      KeepAliveLine();
      FoldOne(r, "Connection: keep-alive", rest);
    } else {
      assert [] + rest == rest;
    }
  }

  lemma PrintedHeadersFold(r: Request, host: seq<char>, linger: bool, length: nat)
    requires host == [] || host[0] !in BLANKS
    requires length <= INT_MAX && !r.linger && r.contentLength == 0
    ensures FoldHeaders(r, PrintHeaders(host, linger, length)) ==
      r.(host := Some(host), linger := linger, contentLength := length)
  {
    var rest := PrintLinger(linger) + PrintLength(length);
    var line := "Host: " + host;
    HostLine(host);
    assert line[6..] == host;
    assert PrintHeaders(host, linger, length) == [line] + rest;
    FoldOne(r, line, rest);
    LingerFold(r.(host := Some(host)), linger, PrintLength(length));
    LengthFold(r.(host := Some(host), linger := linger), length);
  }

  /** A request with the three headers the server understands, and any others, is parsed into exactly its parts. */
  lemma StandardRoundTrip(verb: Method, url: seq<char>, headers: seq<seq<char>>, host: seq<char>, linger: bool,
                          content: seq<char>)
    requires url != [] && url[0] == '/' && Unblank(url) && Clean(url)
    requires host == [] || host[0] !in BLANKS
    requires |content| <= INT_MAX && NUL !in content && Announces(headers, host, linger, |content|)
    ensures ParseRequest(PrintRequest(verb, url, headers, content)) ==
      Complete(Request(verb, if url == "/" then "/judge.html" else url, Some(host), |content|, linger, content))
  {
    hide ParseRequest, PrintRequest, Noticed, PrintHeaders;
    var r := Request(verb, if url == "/" then "/judge.html" else url, None, 0, false, "");
    RoundTrip(verb, url, headers, content);
    AnnouncedFold(r, headers, host, linger, |content|);
    WholeContent(r.(host := Some(host), linger := linger, contentLength := |content|), content);
  }

  /**
   Sent in any number of pieces, such a request is answered with its own parts in the fields, by the code as
   written if no cut falls inside the content and by the repaired loop test in any case.
  */
  lemma ServedRoundTrip(c: Conn, chunks: seq<seq<char>>, test: LoopTest, verb: Method, url: seq<char>,
                        headers: seq<seq<char>>, host: seq<char>, linger: bool, content: seq<char>)
    requires url != [] && url[0] == '/' && Unblank(url) && Clean(url)
    requires host == [] || host[0] !in BLANKS
    requires |content| <= INT_MAX && NUL !in content && Announces(headers, host, linger, |content|)
    requires Flatten(chunks) == PrintRequest(verb, url, headers, content)
    requires Idle(c) && Fits(c, chunks) && (test == Repaired || CutsAreSafe(chunks))
    ensures var end := Serve(c, chunks, test);
      && end.code == GetRequest
      && Answers(end.conn,
           Request(verb, if url == "/" then "/judge.html" else url, Some(host), |content|, linger, content))
  {
    StandardRoundTrip(verb, url, headers, host, linger, content);
    assert chunks != [] by {
      assert PrintRequest(verb, url, headers, content) != [];
    }
    if test == Repaired {
      RepairedComputes(c, chunks);
    } else {
      AsWrittenComputes(c, chunks);
    }
  }

  lemma WholeContent(r: Request, content: seq<char>)
    requires r.contentLength == |content| && NUL !in content && r.body == []
    ensures ReadBody(r, content) == Complete(r.(body := content))
  {
    assert content[..|content|] == content;
    FirstOfUnique(content, {NUL}, |content|);
  }

  lemma PrintedHeadersAreClean(host: seq<char>, linger: bool, length: nat)
    requires Clean(host)
    ensures var h := PrintHeaders(host, linger, length); forall i | 0 <= i < |h| :: Clean(h[i]) && h[i] != []
  {
    DecimalIsClean(length);
  }

  lemma DecimalIsClean(n: nat)
    ensures Clean(Decimal(n)) && Unblank(Decimal(n))
  {
    assert forall i | 0 <= i < |Decimal(n)| :: IsDigit(Decimal(n)[i]);
  }

  /** The three lines alone announce the values. */
  lemma PrintedAnnounce(host: seq<char>, linger: bool, length: nat)
    requires Clean(host)
    ensures Announces(PrintHeaders(host, linger, length), host, linger, length)
  {
    hide Unnoticed, Decimal;
    PrintedHeadersAreClean(host, linger, length);
    var h := "Host: " + host;
    HostNoticed(host);
    KeepAliveNoticed();
    LengthNoticed(length);
    var rest := PrintLinger(linger) + PrintLength(length);
    assert PrintHeaders(host, linger, length) == [h] + rest && ([h] + rest)[1..] == rest;
    AllNoticed(PrintLength(length));
    AllNoticed(rest);
    AllNoticed(PrintHeaders(host, linger, length));
  }

  lemma {:induction false} AllNoticed(lines: seq<seq<char>>)
    requires forall i | 0 <= i < |lines| :: !Unnoticed(lines[i])
    ensures Noticed(lines) == lines
  {
    hide Unnoticed;
    if lines != [] {
      AllNoticed(lines[1..]);
    }
  }

  lemma HostNoticed(host: seq<char>)
    ensures !Unnoticed("Host: " + host)
  {
    assert ("Host: " + host)[..5] == "Host:";
  }

  lemma KeepAliveNoticed()
    ensures !Unnoticed("Connection: keep-alive")
  {
    var t := "Connection: keep-alive";
    assert t[..11] == "Connection:" && t[11..] == " keep-alive";
    assert t[11..][1..] == "keep-alive" && AfterBlanks("keep-alive") == "keep-alive";
  }

  lemma LengthNoticed(length: nat)
    ensures !Unnoticed("Content-Length: " + Decimal(length))
  {
    hide Decimal;
    assert ("Content-Length: " + Decimal(length))[..15] == "Content-Length:";
  }

  // ----- a request cut inside its content -----

  lemma PrintSplit(verb: Method, url: seq<char>, headers: seq<seq<char>>, content: seq<char>, k: nat)
    requires k <= |content|
    ensures PrintRequest(verb, url, headers, content) == PrintRequest(verb, url, headers, content[..k]) + content[k..]
  {
    var head := PrintRequestLine(verb, url) + CRLF + PrintLines(headers) + CRLF;
    assert head + content == head + (content[..k] + content[k..]);
  }

  /** A request of which only a part of the content has arrived */
  lemma PartAwaits(verb: Method, url: seq<char>, headers: seq<seq<char>>, host: seq<char>, linger: bool, length: nat,
                   part: seq<char>)
    requires url != [] && url[0] == '/' && Unblank(url) && Clean(url)
    requires host == [] || host[0] !in BLANKS
    requires |part| < length <= INT_MAX && Announces(headers, host, linger, length)
    ensures ParseRequest(PrintRequest(verb, url, headers, part)) == AwaitingBody(part)
  {
    hide ParseRequest, PrintRequest, PrintHeaders, Noticed;
    RoundTrip(verb, url, headers, part);
    AnnouncedFold(Request(verb, if url == "/" then "/judge.html" else url, None, 0, false, ""), headers, host, linger,
      length);
  }

  function TwoReads(verb: Method, url: seq<char>, headers: seq<seq<char>>, content: seq<char>, k: nat): seq<seq<char>>
    requires k <= |content|
  {
    [PrintRequest(verb, url, headers, content[..k]), content[k..]]
  }

  /** parse_line stops at the first byte of `part`: it is a LF, or a CR that no LF follows. */
  predicate StopsAtOnce(part: seq<char>)
    requires part != []
  {
    part[0] == LF || (part[0] == CR && (|part| == 1 || part[1] != LF))
  }

  /**
   Cut anywhere inside its content, a printed request is answered by the code as written if and only if
   parse_line stops at the first byte of what has arrived; the repaired test answers it in any case.
  */
  lemma CutInsideContent(c: Conn, verb: Method, url: seq<char>, headers: seq<seq<char>>, host: seq<char>, linger: bool,
                         content: seq<char>, k: nat)
    requires url != [] && url[0] == '/' && Unblank(url) && Clean(url)
    requires host == [] || host[0] !in BLANKS
    requires 0 < k < |content| <= INT_MAX && NUL !in content && Announces(headers, host, linger, |content|)
    requires Idle(c) && c.readIdx + |PrintRequest(verb, url, headers, content)| <= READ_BUFFER_SIZE
    ensures var chunks := TwoReads(verb, url, headers, content, k);
      && Fits(c, chunks)
      && Serve(c, chunks, AsWritten).code == (if StopsAtOnce(content[..k]) then GetRequest else NoRequest)
      && Serve(c, chunks, Repaired).code == GetRequest
  {
    hide ParseRequest, PrintRequest, PrintHeaders, Noticed, Serve, Answers, Idle;
    var chunks := TwoReads(verb, url, headers, content, k);
    var all := PrintRequest(verb, url, headers, content);
    PrintSplit(verb, url, headers, content, k);
    FlattenTwo(chunks[0], chunks[1]);
    assert Flatten(chunks) == all;
    StandardRoundTrip(verb, url, headers, host, linger, content);
    PartAwaits(verb, url, headers, host, linger, |content|, content[..k]);
    PartAwaits(verb, url, headers, host, linger, |content|, content[..|content| - 1]);
    PrintSplit(verb, url, headers, content, |content| - 1);
    assert all[..|all| - 1] == PrintRequest(verb, url, headers, content[..|content| - 1]);
    FlattenOne(chunks);
    assert EndsInsideBody(Flatten(chunks[..1])) <==> !StopsAtOnce(content[..k]);
    assert CutsAreSafe(chunks) <==> !EndsInsideBody(Flatten(chunks[..1]));
    AnsweredExactly(c, chunks);
    ServedRoundTrip(c, chunks, Repaired, verb, url, headers, host, linger, content);
  }

  lemma FlattenTwo(a: seq<char>, b: seq<char>)
    ensures Flatten([a, b]) == a + b
  {
    assert Flatten([a, b][1..]) == b + Flatten([b][1..]) == b;
  }

  lemma FlattenOne(chunks: seq<seq<char>>)
    requires chunks != []
    ensures Flatten(chunks[..1]) == chunks[0]
  {
    assert chunks[..1][1..] == [];
  }

  /** "POST /" with an empty host and the content "ab", cut behind the 'a': the smallest request that is lost. */
  lemma LostRequest()
    ensures var chunks := TwoReads(POST, "/", PrintHeaders("", false, 2), "ab", 1);
      && Fits(Fresh(None), chunks)
      && Serve(Fresh(None), chunks, AsWritten).code == NoRequest
      && Serve(Fresh(None), chunks, Repaired).code == GetRequest
  {
    hide Serve, PrintHeaders, PrintRequest, TwoReads, Fits;
    SmallRequest();
    PrintedAnnounce("", false, 2);
    assert "ab"[..1] == "a";
    CutInsideContent(Fresh(None), POST, "/", PrintHeaders("", false, 2), "", false, "ab", 1);
  }

  lemma SmallRequest()
    ensures |PrintRequest(POST, "/", PrintHeaders("", false, 2), "ab")| < 100
  {
    DecimalLength(2, 1, Pow10(1));
    var host, length := "Host: " + "", "Content-Length: " + Decimal(2);
    assert PrintHeaders("", false, 2) == [host, length];
    assert PrintLines([host, length][1..]) == length + CRLF + PrintLines([length][1..]);
  }
}
