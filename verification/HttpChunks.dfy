/**
 Chunk independence: how the bytes of a request are cut into reads does not matter to the repaired loop
 test, and matters to the loop test as coded exactly when a cut falls inside the body and the scanner
 walks over the part that has arrived.
*/
module HttpChunks {
  import opened CString
  import opened Wrappers
  import opened HttpParser
  import opened HttpScan

  /** recv's effect on the buffer */
  function Overwrite(b: seq<char>, p: nat, d: seq<char>): (r: seq<char>)
    requires p + |d| <= |b|
    ensures |r| == |b|
    ensures forall i | 0 <= i < |b| :: r[i] == if p <= i < p + |d| then d[i - p] else b[i]
  {
    seq(|b|, i requires 0 <= i < |b| => if p <= i < p + |d| then d[i - p] else b[i])
  }

  /** One successful recv of the bytes `d` */
  function Feed(c: Conn, d: seq<char>): (r: Conn)
    requires InBounds(c) && c.readIdx + |d| <= READ_BUFFER_SIZE
    ensures InBounds(r)
  {
    c.(buf := Overwrite(c.buf, c.readIdx, d), readIdx := c.readIdx + |d|)
  }

  lemma FeedValid(c: Conn, d: seq<char>)
    requires Valid(c) && c.readIdx + |d| <= READ_BUFFER_SIZE
    ensures Valid(Feed(c, d))
  {
  }

  lemma FeedTwice(c: Conn, d: seq<char>, e: seq<char>)
    requires InBounds(c) && c.readIdx + |d| + |e| <= READ_BUFFER_SIZE
    ensures Feed(Feed(c, d), e) == Feed(c, d + e)
  {
    var x := Feed(Feed(c, d), e).buf;
    var y := Feed(c, d + e).buf;
    assert x == y;
  }

  /** Bytes that arrive after a verdict go behind the request; the NUL that ends the body stays. */
  function AppendRest(c: Conn, d: seq<char>): Conn
    requires InBounds(c) && c.readIdx + |d| <= READ_BUFFER_SIZE
  {
    var r := Feed(c, d);
    if c.state == Content && c.body.Some? then
      var end := c.body.value + c.contentLength;
      if 0 <= end < READ_BUFFER_SIZE then r.(buf := r.buf[end := NUL]) else r
    else r
  }

  // ----- each part of the loop against bytes that arrive later -----

  lemma FeedScan(c: Conn, d: seq<char>)
    requires Valid(c) && c.readIdx + |d| <= READ_BUFFER_SIZE
    ensures ScanEnd(c) < c.readIdx ==> ScanEnd(Feed(c, d)) == ScanEnd(c)
    ensures ScanEnd(Feed(c.(checkedIdx := ScanEnd(c)), d)) == ScanEnd(Feed(c, d))
  {
    var f := Feed(c, d);
    var g := Feed(c.(checkedIdx := ScanEnd(c)), d);
    ScanEndIs(c);
    ScanEndIs(g);
    ScanEndUnique(f, ScanEnd(g));
    if ScanEnd(c) < c.readIdx {
      ScanEndUnique(f, ScanEnd(c));
    }
  }

  lemma FeedLineOk(c: Conn, d: seq<char>)
    requires Valid(c) && c.readIdx + |d| <= READ_BUFFER_SIZE
    requires ParseLine(c).0 == LineOk
    ensures ParseLine(Feed(c, d)) == (LineOk, Feed(ParseLine(c).1, d))
  {
    FeedScan(c, d);
    LineFeedCaseIsDead(c);
    var q := ScanEnd(c);
    SameChars(Feed(c, d).buf[q := NUL][q + 1 := NUL], Overwrite(c.buf[q := NUL][q + 1 := NUL], c.readIdx, d));
  }

  lemma FeedParseLine(c: Conn, d: seq<char>)
    requires Valid(c) && c.readIdx + |d| <= READ_BUFFER_SIZE
    ensures var (status, line) := ParseLine(c);
      ParseLine(Feed(c, d)) == if status == LineOpen then ParseLine(Feed(line, d)) else (status, Feed(line, d))
  {
    if ParseLine(c).0 == LineOk {
      FeedLineOk(c, d);
    } else {
      FeedScan(c, d);
      LineFeedCaseIsDead(c);
      var line := c.(checkedIdx := ScanEnd(c));
      assert ParseLine(c).1 == line;
      assert Feed(line, d) == Feed(c, d).(checkedIdx := ScanEnd(c));
    }
  }

  /** A scan that found no whole line can be repeated from where it stopped. */
  lemma FeedOpenLine(c: Conn, d: seq<char>)
    requires Valid(c) && c.readIdx + |d| <= READ_BUFFER_SIZE && ParseLine(c).0 != LineOk
    ensures ParseLine(Feed(c, d)) == ParseLine(Feed(ParseLine(c).1, d))
  {
    FeedScan(c, d);
    var q := ScanEnd(c);
    assert Feed(c.(checkedIdx := q), d) == Feed(c, d).(checkedIdx := q);
  }

  /** Cutting the request line touches each byte without looking at the others. */
  lemma CutIsPointwise(b: seq<char>, b': seq<char>, text: nat, scan: RequestLineScan, i: nat)
    requires i < |b| == |b'| && b[i] == b'[i]
    ensures CutRequestLine(b, text, scan)[i] == CutRequestLine(b', text, scan)[i]
  {
  }

  lemma CutThenFeed(b: seq<char>, text: nat, t: seq<char>, scan: RequestLineScan, end: nat, p: nat, d: seq<char>)
    requires text + |t| + 2 <= end <= p && p + |d| <= |b| && b[end - 1] == NUL && Placed(scan, t)
    ensures CutRequestLine(Overwrite(b, p, d), text, scan) == Overwrite(CutRequestLine(b, text, scan), p, d)
  {
    var b' := Overwrite(b, p, d);
    CutStaysInLine(b, text, t, scan, end);
    CutStaysInLine(b', text, t, scan, end);
    var x := CutRequestLine(b', text, scan);
    var y := Overwrite(CutRequestLine(b, text, scan), p, d);
    forall i | 0 <= i < |b| ensures x[i] == y[i] {
      if i < p {
        CutIsPointwise(b, b', text, scan, i);
      }
    }
    SameChars(x, y);
  }

  /** The text of a finished line does not change when bytes arrive. */
  lemma FeedText(c: Conn, d: seq<char>)
    requires LineEnded(c) && c.readIdx + |d| <= READ_BUFFER_SIZE
    ensures LineEnded(Feed(c, d))
    ensures CStr(Feed(c, d).buf, c.startLine) == CStr(c.buf, c.startLine)
  {
    LineText(c);
    CStrFrame(c.buf, Feed(c, d).buf, c.startLine, c.checkedIdx);
  }

  lemma FeedApplyRequestLine(c: Conn, text: nat, t: seq<char>, scan: RequestLineScan, d: seq<char>)
    requires InBounds(c) && c.readIdx + |d| <= READ_BUFFER_SIZE && Placed(scan, t)
    requires text + |t| + 2 <= c.checkedIdx && c.buf[c.checkedIdx - 1] == NUL
    ensures ApplyRequestLine(Feed(c, d), text, scan) ==
      (ApplyRequestLine(c, text, scan).0, Feed(ApplyRequestLine(c, text, scan).1, d))
  {
    CutThenFeed(c.buf, text, t, scan, c.checkedIdx, c.readIdx, d);
  }

  lemma FeedRequestLine(c: Conn, d: seq<char>)
    requires LineEnded(c) && c.state == RequestLine && c.readIdx + |d| <= READ_BUFFER_SIZE
    ensures Dispatch(Feed(c, d)) == (Dispatch(c).0, Feed(Dispatch(c).1, d))
  {
    FeedText(c, d);
    LineText(c);
    var next := c.(startLine := c.checkedIdx);
    var t := CStr(c.buf, c.startLine);
    assert Feed(next, d) == Feed(c, d).(startLine := c.checkedIdx);
    FeedApplyRequestLine(next, c.startLine, t, ScanRequestLine(t), d);
  }

  lemma FeedStoreHeader(c: Conn, text: nat, h: HeaderField, d: seq<char>)
    requires InBounds(c) && c.readIdx + |d| <= READ_BUFFER_SIZE
    ensures StoreHeader(Feed(c, d), text, h) == (StoreHeader(c, text, h).0, Feed(StoreHeader(c, text, h).1, d))
  {
  }

  lemma FeedHeader(c: Conn, d: seq<char>)
    requires LineEnded(c) && c.state == Header && c.readIdx + |d| <= READ_BUFFER_SIZE
    ensures Dispatch(Feed(c, d)) == (Dispatch(c).0, Feed(Dispatch(c).1, d))
  {
    FeedText(c, d);
    var next := c.(startLine := c.checkedIdx);
    assert Feed(next, d) == Feed(c, d).(startLine := c.checkedIdx);
    FeedStoreHeader(next, c.startLine, ScanHeader(CStr(c.buf, c.startLine)), d);
  }

  lemma FeedDispatchLine(c: Conn, d: seq<char>)
    requires LineEnded(c) && c.state != Content && c.readIdx + |d| <= READ_BUFFER_SIZE
    ensures Dispatch(Feed(c, d)) == (Dispatch(c).0, Feed(Dispatch(c).1, d))
  {
    if c.state == RequestLine {
      FeedRequestLine(c, d);
    } else {
      FeedHeader(c, d);
    }
  }

  lemma FeedDispatchBody(c: Conn, d: seq<char>)
    requires Valid(c) && c.state == Content && c.readIdx + |d| <= READ_BUFFER_SIZE && BodyArrived(c)
    ensures Dispatch(Feed(c, d)) == (GetRequest, AppendRest(Dispatch(c).1, d))
  {
    SameChars(Dispatch(Feed(c, d)).1.buf, AppendRest(Dispatch(c).1, d).buf);
  }

  // ----- resuming the repaired loop -----

  /** While the body is awaited, the current line starts at the body. */
  predicate Settled(c: Conn) {
    Valid(c) && (c.state == Content ==> c.startLine == c.checkedIdx)
  }

  lemma {:induction false} RepairedKeepsSettled(c: Conn)
    requires Settled(c)
    ensures ProcessRead(c, Repaired).0 == NoRequest ==> Settled(ProcessRead(c, Repaired).1)
    decreases c.readIdx - c.checkedIdx
  {
    ProcessReadKeepsValid(c, Repaired);
    ParseLineKeepsValid(c);
    var (status, line) := if c.state == Content then (LineOk, c) else ParseLine(c);
    if status == LineOk && c.state != Content && Dispatch(line).0 == NoRequest {
      DispatchKeepsValid(line);
      RepairedKeepsSettled(Dispatch(line).1);
    }
  }

  /** The rest of a call of process_read once a request or header line has been found */
  function AfterLine(line: Conn): (HttpCode, Conn)
    requires InBounds(line) && line.state != Content && line.startLine < line.checkedIdx
  {
    var (code, next) := Dispatch(line);
    if code != NoRequest then (code, next) else ProcessRead(next, Repaired)
  }

  lemma ReadALine(c: Conn)
    requires InBounds(c) && c.state != Content
    ensures var (status, line) := ParseLine(c);
      ProcessRead(c, Repaired) == if status == LineOk then AfterLine(line) else (NoRequest, line)
  {
  }

  lemma ResumeOpenLine(c: Conn, d: seq<char>)
    requires Valid(c) && c.state != Content && c.readIdx + |d| <= READ_BUFFER_SIZE && ParseLine(c).0 != LineOk
    ensures ProcessRead(Feed(c, d), Repaired) == ProcessRead(Feed(ParseLine(c).1, d), Repaired)
  {
    var line := ParseLine(c).1;
    FeedOpenLine(c, d);
    ReadALine(Feed(c, d));
    ReadALine(Feed(line, d));
  }

  lemma ResumeBody(c: Conn, d: seq<char>)
    requires Settled(c) && c.state == Content && c.readIdx + |d| <= READ_BUFFER_SIZE
    ensures ProcessRead(Feed(c, d), Repaired) == Continued(ProcessRead(c, Repaired), d)
  {
    if BodyArrived(c) {
      FeedDispatchBody(c, d);
    } else {
      assert ProcessRead(c, Repaired) == (NoRequest, c);
    }
  }

  /** The calls before and after a cut do together what one call does with all the bytes. */
  lemma {:induction false} Resume(c: Conn, d: seq<char>)
    requires Settled(c) && c.readIdx + |d| <= READ_BUFFER_SIZE
    ensures ProcessRead(Feed(c, d), Repaired) == Continued(ProcessRead(c, Repaired), d)
    decreases c.readIdx - c.checkedIdx, 1
  {
    if c.state == Content {
      ResumeBody(c, d);
    } else if ParseLine(c).0 != LineOk {
      ReadALine(c);
      ResumeOpenLine(c, d);
    } else {
      FeedParseLine(c, d);
      ParseLineKeepsValid(c);
      ReadALine(c);
      ReadALine(Feed(c, d));
      ResumeAfterLine(ParseLine(c).1, d);
    }
  }

  /** What becomes of the result of a call when the bytes `d` arrive after it */
  function Continued(r: (HttpCode, Conn), d: seq<char>): (HttpCode, Conn)
    requires InBounds(r.1) && r.1.readIdx + |d| <= READ_BUFFER_SIZE
  {
    if r.0 == NoRequest then ProcessRead(Feed(r.1, d), Repaired) else (r.0, AppendRest(r.1, d))
  }

  lemma {:induction false} ResumeAfterLine(line: Conn, d: seq<char>)
    requires LineEnded(line) && line.state != Content && line.readIdx + |d| <= READ_BUFFER_SIZE
    ensures AfterLine(Feed(line, d)) == Continued(AfterLine(line), d)
    decreases line.readIdx - line.checkedIdx, 2
  {
    FeedDispatchLine(line, d);
    DispatchKeepsValid(line);
    var (code, next) := Dispatch(line);
    if code == NoRequest {
      Resume(next, d);
    } else {
      VerdictOnLine(line);
    }
  }

  lemma VerdictOnLine(c: Conn)
    requires InBounds(c) && c.state != Content && c.startLine < c.checkedIdx
    requires Dispatch(c).0 != NoRequest
    ensures Dispatch(c).1.state != Content
  {
  }

  // ----- runs over many reads -----

  function Flatten(chunks: seq<seq<char>>): seq<char> {
    if chunks == [] then [] else chunks[0] + Flatten(chunks[1..])
  }

  /** The first verdict, the fields at that time and the reads that were not made any more */
  datatype Outcome = Outcome(code: HttpCode, conn: Conn, rest: seq<seq<char>>)

  predicate Fits(c: Conn, chunks: seq<seq<char>>) {
    c.readIdx + |Flatten(chunks)| <= READ_BUFFER_SIZE
  }

  /** process_read after each read, until its first verdict */
  function Serve(c: Conn, chunks: seq<seq<char>>, test: LoopTest): (r: Outcome)
    requires InBounds(c) && Fits(c, chunks)
    ensures InBounds(r.conn) && Fits(r.conn, r.rest)
    ensures r.code == NoRequest ==> r.rest == []
    decreases |chunks|
  {
    if chunks == [] then Outcome(NoRequest, c, [])
    else
      var (code, r) := ProcessRead(Feed(c, chunks[0]), test);
      if code != NoRequest then Outcome(code, r, chunks[1..]) else Serve(r, chunks[1..], test)
  }

  /** One read of everything followed by one call of process_read */
  function ServeWhole(c: Conn, chunks: seq<seq<char>>, test: LoopTest): (HttpCode, Conn)
    requires InBounds(c) && Fits(c, chunks)
  {
    ProcessRead(Feed(c, Flatten(chunks)), test)
  }

  /** The chunked run ends as the whole one: same verdict, and same fields once the unread bytes are appended. */
  predicate SameEnd(chunked: Outcome, whole: (HttpCode, Conn))
    requires InBounds(chunked.conn) && Fits(chunked.conn, chunked.rest)
  {
    && whole.0 == chunked.code
    && whole.1 == if chunked.code == NoRequest then chunked.conn else AppendRest(chunked.conn, Flatten(chunked.rest))
  }

  lemma WholeAfterFirst(c: Conn, chunks: seq<seq<char>>)
    requires Settled(c) && Fits(c, chunks) && chunks != []
    ensures ServeWhole(c, chunks, Repaired) ==
      Continued(ProcessRead(Feed(c, chunks[0]), Repaired), Flatten(chunks[1..]))
    ensures Settled(Feed(c, chunks[0]))
  {
    FeedValid(c, chunks[0]);
    FeedTwice(c, chunks[0], Flatten(chunks[1..]));
    Resume(Feed(c, chunks[0]), Flatten(chunks[1..]));
  }

  lemma OneChunk(c: Conn, chunks: seq<seq<char>>, test: LoopTest)
    requires InBounds(c) && Fits(c, chunks) && |chunks| == 1
    ensures Serve(c, chunks, test).code == ServeWhole(c, chunks, test).0
    ensures Serve(c, chunks, test).conn == ServeWhole(c, chunks, test).1
    ensures Serve(c, chunks, test).rest == []
  {
    assert Flatten(chunks) == chunks[0] + Flatten(chunks[1..]) == chunks[0];
    var (code, r) := ProcessRead(Feed(c, chunks[0]), test);
    assert chunks[1..] == [];
    if code == NoRequest {
      assert Serve(r, chunks[1..], test) == Outcome(NoRequest, r, []);
    }
  }

  lemma ServeFirst(c: Conn, chunks: seq<seq<char>>, test: LoopTest)
    requires InBounds(c) && Fits(c, chunks) && chunks != []
    ensures var (code, r) := ProcessRead(Feed(c, chunks[0]), test);
      Serve(c, chunks, test) == if code != NoRequest then Outcome(code, r, chunks[1..]) else Serve(r, chunks[1..], test)
  {
  }

  /** With the repaired loop test every way of cutting the input gives the same result. */
  lemma {:induction false} RepairedChunkIndependence(c: Conn, chunks: seq<seq<char>>)
    requires Settled(c) && Fits(c, chunks) && chunks != []
    ensures SameEnd(Serve(c, chunks, Repaired), ServeWhole(c, chunks, Repaired))
    decreases |chunks|
  {
    WholeAfterFirst(c, chunks);
    ServeFirst(c, chunks, Repaired);
    var r := ProcessRead(Feed(c, chunks[0]), Repaired);
    if r.0 == NoRequest {
      if |chunks| == 1 {
        OneChunk(c, chunks, Repaired);
      } else {
        RepairedKeepsSettled(Feed(c, chunks[0]));
        assert ServeWhole(c, chunks, Repaired) == ServeWhole(r.1, chunks[1..], Repaired);
        RepairedChunkIndependence(r.1, chunks[1..]);
      }
    }
  }

  // ----- the loop test as coded -----

  /**
   The bytes received so far leave the body incomplete, and parse_line would not stop at its first byte:
   it is no LF, and no CR unless a LF has arrived behind it.
  */
  predicate ScansBody(r: (HttpCode, Conn)) {
    var c := r.1;
    && r.0 == NoRequest && c.state == Content && c.checkedIdx < c.readIdx <= |c.buf|
    && c.buf[c.checkedIdx] != LF
    && (c.buf[c.checkedIdx] == CR ==> c.checkedIdx + 1 < c.readIdx && c.buf[c.checkedIdx + 1] == LF)
  }

  lemma RescanMoves(c: Conn)
    requires Valid(c) && c.state == Content
    ensures if ScansBody((NoRequest, c)) then c.checkedIdx < ParseLine(c).1.checkedIdx else
      ParseLine(c).1 == c && ParseLine(c).0 != LineOk
  {
    LineFeedCaseIsDead(c);
    if c.checkedIdx == c.readIdx || c.buf[c.checkedIdx] in EOLS {
      ScanEndUnique(c, c.checkedIdx);
    }
  }

  /** Once in the body phase, the code as written only moves the cursors forward and stays in that phase. */
  lemma {:induction false} RescanStaysInBody(c: Conn)
    requires InBounds(c) && c.state == Content && !BodyArrived(c)
    ensures var (code, r) := Rescan(c);
      && code == NoRequest && r.state == Content && r.contentLength == c.contentLength && !BodyArrived(r)
      && ParseLine(c).1.checkedIdx <= r.checkedIdx
    decreases c.readIdx - c.checkedIdx
  {
    var (status, line) := ParseLine(c);
    if status == LineOk {
      RescanStaysInBody(Dispatch(line).1);
    }
  }

  /** One call as coded is the repaired call, followed by a scan of the incomplete body. */
  lemma {:induction false} AsWrittenRescans(c: Conn)
    requires InBounds(c)
    ensures var r := ProcessRead(c, Repaired);
      ProcessRead(c, AsWritten) == if r.0 == NoRequest && r.1.state == Content then Rescan(r.1) else r
    decreases c.readIdx - c.checkedIdx
  {
    if c.state != Content {
      var (status, line) := ParseLine(c);
      if status == LineOk && Dispatch(line).0 == NoRequest {
        AsWrittenRescans(Dispatch(line).1);
      }
    }
  }

  /** One call as coded differs from the repaired call exactly when it scans part of a body. */
  lemma AgreesUnlessBodyScanned(c: Conn)
    requires Settled(c)
    ensures ProcessRead(c, AsWritten) == ProcessRead(c, Repaired) <==> !ScansBody(ProcessRead(c, Repaired))
    ensures ScansBody(ProcessRead(c, Repaired)) ==>
      && ProcessRead(c, AsWritten).0 == NoRequest
      && ProcessRead(c, AsWritten).1.checkedIdx > ProcessRead(c, Repaired).1.checkedIdx
  {
    var r := ProcessRead(c, Repaired);
    AsWrittenRescans(c);
    RepairedKeepsSettled(c);
    if r.0 == NoRequest && r.1.state == Content {
      BodyStillIncomplete(c);
      RescanMoves(r.1);
      RescanStaysInBody(r.1);
    }
  }

  lemma {:induction false} BodyStillIncomplete(c: Conn)
    requires InBounds(c)
    ensures var (code, r) := ProcessRead(c, Repaired); code == NoRequest && r.state == Content ==> !BodyArrived(r)
    decreases c.readIdx - c.checkedIdx
  {
    if c.state != Content {
      var (status, line) := ParseLine(c);
      if status == LineOk && Dispatch(line).0 == NoRequest {
        BodyStillIncomplete(Dispatch(line).1);
      }
    }
  }

  lemma {:induction false} FlattenTake(chunks: seq<seq<char>>, k: nat)
    requires k <= |chunks|
    ensures |Flatten(chunks[..k])| <= |Flatten(chunks)|
  {
    if k > 0 {
      assert chunks[..k][1..] == chunks[1..][..k - 1];
      FlattenTake(chunks[1..], k - 1);
    }
  }

  /** The bytes before cut `k` do not end in a partly arrived body that the scanner walks over. */
  ghost predicate SafeCut(c: Conn, chunks: seq<seq<char>>, k: nat)
    requires InBounds(c) && Fits(c, chunks) && k <= |chunks|
  {
    FlattenTake(chunks, k);
    !ScansBody(ServeWhole(c, chunks[..k], Repaired))
  }

  ghost predicate CutsOutsideBody(c: Conn, chunks: seq<seq<char>>)
    requires InBounds(c) && Fits(c, chunks)
  {
    forall k | 0 < k < |chunks| :: SafeCut(c, chunks, k)
  }

  lemma CutAt(c: Conn, chunks: seq<seq<char>>, k: nat)
    requires Settled(c) && Fits(c, chunks) && 0 < k < |chunks|
    ensures var r := ProcessRead(Feed(c, chunks[0]), Repaired);
      SafeCut(c, chunks, k) <==>
        if k == 1 then !ScansBody(r) else (r.0 == NoRequest ==> SafeCut(r.1, chunks[1..], k - 1))
  {
    FlattenTake(chunks, k);
    FlattenTake(chunks[1..], k - 1);
    var part := chunks[..k];
    assert part[1..] == chunks[1..][..k - 1];
    if k == 1 {
      assert Flatten(part) == part[0] + Flatten(part[1..]) == part[0];
    } else {
      WholeAfterFirst(c, part);
    }
  }

  lemma CutsFirst(c: Conn, chunks: seq<seq<char>>)
    requires Settled(c) && Fits(c, chunks) && |chunks| >= 2
    ensures var r := ProcessRead(Feed(c, chunks[0]), Repaired);
      CutsOutsideBody(c, chunks) <==>
        !ScansBody(r) && (r.0 == NoRequest ==> CutsOutsideBody(r.1, chunks[1..]))
  {
    hide ProcessRead, SafeCut, ScansBody;
    var r := ProcessRead(Feed(c, chunks[0]), Repaired);
    CutAt(c, chunks, 1);
    forall k | 1 < k < |chunks|
      ensures SafeCut(c, chunks, k) <==> (r.0 == NoRequest ==> SafeCut(r.1, chunks[1..], k - 1))
    {
      CutAt(c, chunks, k);
    }
    if r.0 == NoRequest && CutsOutsideBody(c, chunks) {
      forall j | 0 < j < |chunks[1..]| ensures SafeCut(r.1, chunks[1..], j) {
        assert SafeCut(c, chunks, j + 1);
      }
    }
  }

  lemma AsWrittenWhole(c: Conn, chunks: seq<seq<char>>)
    requires Settled(c) && Fits(c, chunks) && chunks != []
    ensures var r := ProcessRead(Feed(c, chunks[0]), Repaired);
      ServeWhole(c, chunks, AsWritten) ==
        if r.0 == NoRequest then ServeWhole(r.1, chunks[1..], AsWritten) else Continued(r, Flatten(chunks[1..]))
  {
    var r := ProcessRead(Feed(c, chunks[0]), Repaired);
    WholeAfterFirst(c, chunks);
    AsWrittenRescans(Feed(c, Flatten(chunks)));
    if r.0 == NoRequest {
      AsWrittenRescans(Feed(r.1, Flatten(chunks[1..])));
    }
  }

  lemma SingleReadStaysOpen(c: Conn, chunks: seq<seq<char>>)
    requires Settled(c) && Fits(c, chunks) && |chunks| == 1
    requires ProcessRead(Feed(c, chunks[0]), Repaired).0 == NoRequest
    ensures ServeWhole(c, chunks, AsWritten).0 == NoRequest
  {
    assert Flatten(chunks) == chunks[0] + Flatten(chunks[1..]) == chunks[0];
    FeedValid(c, chunks[0]);
    AgreesUnlessBodyScanned(Feed(c, chunks[0]));
  }

  /** A verdict reached on the first read is the verdict on everything. */
  lemma FirstReadDecides(c: Conn, chunks: seq<seq<char>>)
    requires Settled(c) && Fits(c, chunks) && chunks != []
    ensures ProcessRead(Feed(c, chunks[0]), Repaired).0 != NoRequest ==>
      SameEnd(Serve(c, chunks, AsWritten), ServeWhole(c, chunks, AsWritten))
  {
    AsWrittenWhole(c, chunks);
    ServeFirst(c, chunks, AsWritten);
    AsWrittenRescans(Feed(c, chunks[0]));
  }

  /** The code as written is chunk independent as long as no cut makes it scan part of a body. */
  lemma {:induction false} AsWrittenChunkIndependence(c: Conn, chunks: seq<seq<char>>)
    requires Settled(c) && Fits(c, chunks) && chunks != []
    requires CutsOutsideBody(c, chunks)
    ensures SameEnd(Serve(c, chunks, AsWritten), ServeWhole(c, chunks, AsWritten))
    decreases |chunks|
  {
    var r := ProcessRead(Feed(c, chunks[0]), Repaired);
    if r.0 != NoRequest {
      FirstReadDecides(c, chunks);
    } else if |chunks| == 1 {
      OneChunk(c, chunks, AsWritten);
      SingleReadStaysOpen(c, chunks);
    } else {
      CutsFirst(c, chunks);
      FeedValid(c, chunks[0]);
      AgreesUnlessBodyScanned(Feed(c, chunks[0]));
      RepairedKeepsSettled(Feed(c, chunks[0]));
      ServeFirst(c, chunks, AsWritten);
      AsWrittenWhole(c, chunks);
      AsWrittenChunkIndependence(r.1, chunks[1..]);
    }
  }

  lemma {:induction false} ServeMovesForward(c: Conn, chunks: seq<seq<char>>, test: LoopTest)
    requires InBounds(c) && Fits(c, chunks)
    ensures Serve(c, chunks, test).conn.checkedIdx >= c.checkedIdx
    decreases |chunks|
  {
    if chunks != [] {
      ServeFirst(c, chunks, test);
      var (code, r) := ProcessRead(Feed(c, chunks[0]), test);
      if code == NoRequest {
        ServeMovesForward(r, chunks[1..], test);
      }
    }
  }

  /** A cut that makes it scan part of a body spoils the result of an input that holds a whole request. */
  lemma {:induction false} ScannedBodySpoils(c: Conn, chunks: seq<seq<char>>)
    requires Settled(c) && Fits(c, chunks) && chunks != []
    ensures ServeWhole(c, chunks, AsWritten).0 != NoRequest && !CutsOutsideBody(c, chunks) ==>
      !SameEnd(Serve(c, chunks, AsWritten), ServeWhole(c, chunks, AsWritten))
    decreases |chunks|
  {
    hide ProcessRead, Serve, SafeCut;
    if ServeWhole(c, chunks, AsWritten).0 != NoRequest && !CutsOutsideBody(c, chunks) {
      var r := ProcessRead(Feed(c, chunks[0]), Repaired);
      CutsFirst(c, chunks);
      ServeFirst(c, chunks, AsWritten);
      AsWrittenWhole(c, chunks);
      FeedValid(c, chunks[0]);
      AgreesUnlessBodyScanned(Feed(c, chunks[0]));
      if ScansBody(r) {
        ServeMovesForward(ProcessRead(Feed(c, chunks[0]), AsWritten).1, chunks[1..], AsWritten);
        BodyVerdictStays(r.1, Flatten(chunks[1..]));
      } else {
        RepairedKeepsSettled(Feed(c, chunks[0]));
        ScannedBodySpoils(r.1, chunks[1..]);
      }
    }
  }

  lemma BodyVerdictStays(c: Conn, d: seq<char>)
    requires InBounds(c) && c.state == Content && c.readIdx + |d| <= READ_BUFFER_SIZE
    ensures ProcessRead(Feed(c, d), AsWritten).0 != NoRequest ==>
      ProcessRead(Feed(c, d), AsWritten).1.checkedIdx == c.checkedIdx
  {
    if !BodyArrived(Feed(c, d)) {
      RescanStaysInBody(Dispatch(Feed(c, d)).1);
    }
  }

  /**
   For every input that holds a whole request, chunk independence holds exactly when no cut makes the code scan a
   body.
  */
  lemma AsWrittenExactly(c: Conn, chunks: seq<seq<char>>)
    requires Settled(c) && Fits(c, chunks) && chunks != []
    ensures ServeWhole(c, chunks, AsWritten).0 != NoRequest ==>
      (SameEnd(Serve(c, chunks, AsWritten), ServeWhole(c, chunks, AsWritten)) <==> CutsOutsideBody(c, chunks))
  {
    if CutsOutsideBody(c, chunks) {
      AsWrittenChunkIndependence(c, chunks);
    } else {
      ScannedBodySpoils(c, chunks);
    }
  }

  lemma {:induction false} NeverArrives(c: Conn, chunks: seq<seq<char>>)
    requires InBounds(c) && Fits(c, chunks) && c.state == Content
    requires c.readIdx + |Flatten(chunks)| < c.contentLength + c.checkedIdx
    ensures Serve(c, chunks, AsWritten).code == NoRequest
    decreases |chunks|
  {
    if chunks != [] {
      ServeFirst(c, chunks, AsWritten);
      RescanStaysInBody(Dispatch(Feed(c, chunks[0])).1);
      NeverArrives(ProcessRead(Feed(c, chunks[0]), AsWritten).1, chunks[1..]);
    }
  }

  /** A request whose body is cut where the scanner walks over it is never answered, however the rest arrives. */
  lemma CutBodyIsNeverAnswered(c: Conn, chunks: seq<seq<char>>)
    requires Settled(c) && Fits(c, chunks) && chunks != []
    ensures var r := ProcessRead(Feed(c, chunks[0]), Repaired);
      ScansBody(r) && r.1.readIdx + |Flatten(chunks[1..])| <= r.1.checkedIdx + r.1.contentLength ==>
        Serve(c, chunks, AsWritten).code == NoRequest
  {
    var r := ProcessRead(Feed(c, chunks[0]), Repaired);
    if ScansBody(r) && r.1.readIdx + |Flatten(chunks[1..])| <= r.1.checkedIdx + r.1.contentLength {
      FeedValid(c, chunks[0]);
      ServeFirst(c, chunks, AsWritten);
      AgreesUnlessBodyScanned(Feed(c, chunks[0]));
      AsWrittenRescans(Feed(c, chunks[0]));
      BodyStillIncomplete(Feed(c, chunks[0]));
      RescanStaysInBody(r.1);
      NeverArrives(ProcessRead(Feed(c, chunks[0]), AsWritten).1, chunks[1..]);
    }
  }

  /** Only the last byte of the input brings the verdict. */
  predicate JustEnough(c: Conn, input: seq<char>)
    requires InBounds(c) && c.readIdx + |input| <= READ_BUFFER_SIZE
  {
    input == [] || ProcessRead(Feed(c, input[..|input| - 1]), Repaired).0 == NoRequest
  }

  lemma JustEnoughLater(c: Conn, d: seq<char>, e: seq<char>)
    requires Settled(c) && c.readIdx + |d| + |e| <= READ_BUFFER_SIZE && JustEnough(c, d + e)
    requires ProcessRead(Feed(c, d), Repaired).0 == NoRequest
    ensures JustEnough(ProcessRead(Feed(c, d), Repaired).1, e)
  {
    if e != [] {
      assert (d + e)[..|d + e| - 1] == d + e[..|e| - 1];
      FeedTwice(c, d, e[..|e| - 1]);
      FeedValid(c, d);
      Resume(Feed(c, d), e[..|e| - 1]);
    }
  }

  lemma JustEnoughBody(c: Conn, d: seq<char>)
    requires InBounds(c) && c.state == Content && !BodyArrived(c)
    requires c.readIdx + |d| <= READ_BUFFER_SIZE && JustEnough(c, d)
    ensures c.readIdx + |d| <= c.checkedIdx + c.contentLength
  {
  }

  /** A request with nothing behind it is never answered if a cut makes the code scan part of its body. */
  lemma {:induction false} ScannedBodyIsNeverAnswered(c: Conn, chunks: seq<seq<char>>)
    requires Settled(c) && Fits(c, chunks) && chunks != []
    ensures JustEnough(c, Flatten(chunks)) && !CutsOutsideBody(c, chunks) ==>
      Serve(c, chunks, AsWritten).code == NoRequest
    decreases |chunks|
  {
    hide ProcessRead, JustEnough, Serve, SafeCut;
    if JustEnough(c, Flatten(chunks)) && !CutsOutsideBody(c, chunks) {
      var r := ProcessRead(Feed(c, chunks[0]), Repaired);
      var rest := Flatten(chunks[1..]);
      FeedValid(c, chunks[0]);
      CutsFirst(c, chunks);
      JustEnoughLater(c, chunks[0], rest);
      if ScansBody(r) {
        BodyStillIncomplete(Feed(c, chunks[0]));
        JustEnoughBody(r.1, rest);
        CutBodyIsNeverAnswered(c, chunks);
      } else {
        ServeFirst(c, chunks, AsWritten);
        AgreesUnlessBodyScanned(Feed(c, chunks[0]));
        RepairedKeepsSettled(Feed(c, chunks[0]));
        ScannedBodyIsNeverAnswered(r.1, chunks[1..]);
      }
    }
  }

  // ----- the cost of a whole run -----

  function ServeCost(c: Conn, chunks: seq<seq<char>>, test: LoopTest): nat
    requires InBounds(c) && Fits(c, chunks)
    decreases |chunks|
  {
    if chunks == [] then 0
    else
      var (code, r) := ProcessRead(Feed(c, chunks[0]), test);
      ReadCost(Feed(c, chunks[0]), test) + if code != NoRequest then 0 else ServeCost(r, chunks[1..], test)
  }

  /** How many calls of a run stop at a bad line end */
  function BadStops(c: Conn, chunks: seq<seq<char>>, test: LoopTest): nat
    requires InBounds(c) && Fits(c, chunks)
    decreases |chunks|
  {
    if chunks == [] then 0
    else
      var (code, r) := ProcessRead(Feed(c, chunks[0]), test);
      (if StopsBadly((code, r), test) then 1 else 0) + if code != NoRequest then 0 else BadStops(r, chunks[1..], test)
  }

  /**
   Up to the verdict, parse_line reads at most one byte per call more than m_checked_idx has moved, and one more
   for each bad stop.
  */
  lemma {:induction false} LinearScanning(c: Conn, chunks: seq<seq<char>>, test: LoopTest)
    requires Valid(c) && Fits(c, chunks)
    ensures var end := Serve(c, chunks, test);
      && ServeCost(c, chunks, test) <= end.conn.checkedIdx - c.checkedIdx + |chunks| - |end.rest| + BadStops(c,
          chunks, test)
      && BadStops(c, chunks, test) <= |chunks| - |end.rest|
    decreases |chunks|
  {
    hide ReadCost, ProcessRead, StopsBadly, Surplus;
    if chunks != [] {
      FeedValid(c, chunks[0]);
      ServeFirst(c, chunks, test);
      ReadCostIs(Feed(c, chunks[0]), test);
      SurplusBound(ProcessRead(Feed(c, chunks[0]), test), test);
      ProcessReadKeepsValid(Feed(c, chunks[0]), test);
      var (code, r) := ProcessRead(Feed(c, chunks[0]), test);
      if code == NoRequest {
        LinearScanning(r, chunks[1..], test);
      }
    }
  }

  /** A CR before another byte: two bytes are read and m_checked_idx does not move. */
  lemma BareReturnCost(c: Conn, test: LoopTest)
    requires Valid(c) && c.state == RequestLine && c.checkedIdx == c.readIdx && c.readIdx + 2 <= READ_BUFFER_SIZE
    ensures Serve(c, ["\rX"], test).conn.checkedIdx == c.checkedIdx && ServeCost(c, ["\rX"], test) == 2
  {
    var f := Feed(c, "\rX");
    FeedValid(c, "\rX");
    ScanEndUnique(f, c.checkedIdx);
    LastRead(c, "\rX", test);
  }

  lemma LastRead(c: Conn, d: seq<char>, test: LoopTest)
    requires InBounds(c) && c.readIdx + |d| <= READ_BUFFER_SIZE
    ensures |Flatten([d])| == |d|
    ensures var (code, r) := ProcessRead(Feed(c, d), test);
      Serve(c, [d], test) == Outcome(code, r, []) && ServeCost(c, [d], test) == ReadCost(Feed(c, d), test)
  {
    assert [d][1..] == [];
    assert Flatten([d]) == d + Flatten([]);
    var (code, r) := ProcessRead(Feed(c, d), test);
    if code == NoRequest {
      assert Fits(r, []);
      assert Serve(r, [], test) == Outcome(NoRequest, r, []) && ServeCost(r, [], test) == 0;
    }
  }
}
