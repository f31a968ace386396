/** The request side of http_conn as an object: fields updated step by step, m_read_buf changed in place. */
module HttpConn {
  import opened CString
  import opened Wrappers
  import opened HttpParser
  import opened HttpScan
  import opened HttpChunks
  import opened HttpInPlace

  class HttpConn {
    const readBuf: array<char>
    var readIdx: nat
    var checkedIdx: nat
    var startLine: nat
    var state: CheckState
    var verb: Method
    var cgi: bool
    var url: Option<nat>
    var version: Option<nat>
    var host: Option<nat>
    var contentLength: int
    var linger: bool
    var body: Option<nat>

    ghost function View(): Conn
      reads this, readBuf
    {
      Conn(readBuf[..], readIdx, checkedIdx, startLine, state, verb, cgi, url, version, host,
                contentLength, linger, body)
    }

    ghost predicate IsValid()
      reads this, readBuf
    {
      Valid(View())
    }

    constructor ()
      ensures View() == Fresh(None) && fresh(readBuf)
    {
      readBuf := new char[READ_BUFFER_SIZE](i => NUL);
      readIdx, checkedIdx, startLine := 0, 0, 0;
      state, verb, cgi := RequestLine, GET, false;
      url, version, host, body := None, None, None, None;
      contentLength, linger := 0, false;
      new;
      assert View().buf == Fresh(None).buf;
    }

    /** init(): the connection is ready for the next request. */
    method Init()
      requires readBuf.Length == READ_BUFFER_SIZE
      modifies this, readBuf
      ensures View() == Fresh(old(body))
      ensures readIdx == 0 && checkedIdx == 0 && startLine == 0 && state == RequestLine && verb == GET && !cgi
      ensures url == None && version == None && host == None && contentLength == 0 && !linger
      ensures forall i | 0 <= i < readBuf.Length :: readBuf[i] == '\0'
    {
      state, linger, verb, cgi := RequestLine, false, GET, false;
      url, version, host := None, None, None;
      contentLength := 0;
      startLine, checkedIdx, readIdx := 0, 0, 0;
      forall i | 0 <= i < readBuf.Length {
        readBuf[i] := NUL;
      }
      assert View().buf == Fresh(old(body)).buf;
    }

    /** read_once, where recv has returned `received`; recv never returns more than it was asked for. */
    method ReadOnce(received: seq<char>) returns (ok: bool)
      requires IsValid()
      requires |received| <= READ_BUFFER_SIZE - readIdx
      modifies this`readIdx, readBuf
      ensures IsValid()
      ensures ok <==> old(readIdx) < READ_BUFFER_SIZE && received != []
      ensures View() == Feed(old(View()), received)
    {
      FeedValid(View(), received);
      if readIdx >= READ_BUFFER_SIZE || received == [] {
        SameChars(Feed(View(), received).buf, View().buf);
        return false;
      }
      var k := readIdx;
      forall i | k <= i < k + |received| {
        readBuf[i] := received[i - k];
      }
      readIdx := readIdx + |received|;
      SameChars(View().buf, Feed(old(View()), received).buf);
      return true;
    }

    /** `looks` counts the bytes that are read from m_read_buf. */
    method ParseLine() returns (status: LineStatus, ghost looks: nat)
      requires InBounds(View())
      modifies this`checkedIdx, readBuf
      ensures (status, View()) == HttpParser.ParseLine(old(View()))
      ensures looks == ScanCost(old(View()))
    {
      looks := 0;
      while checkedIdx < readIdx
        invariant old(checkedIdx) <= checkedIdx <= readIdx
        invariant readBuf[..] == old(readBuf[..])
        invariant forall i | old(checkedIdx) <= i < checkedIdx :: readBuf[i] !in EOLS
        invariant looks == checkedIdx - old(checkedIdx)
      {
        var temp := readBuf[checkedIdx];
        looks := looks + 1;
        if temp == CR {
          ScanEndUnique(old(View()), checkedIdx);
          if checkedIdx + 1 == readIdx {
            return LineOpen, looks;
          }
          looks := looks + 1;
          if readBuf[checkedIdx + 1] == LF {
            readBuf[checkedIdx] := NUL;
            checkedIdx := checkedIdx + 1;
            readBuf[checkedIdx] := NUL;
            checkedIdx := checkedIdx + 1;
            return LineOk, looks;
          }
          return LineBad, looks;
        } else if temp == LF {
          ScanEndUnique(old(View()), checkedIdx);
          if checkedIdx > 1 {
            looks := looks + 1;
          }
          if checkedIdx > 1 && readBuf[checkedIdx - 1] == CR {
            readBuf[checkedIdx - 1] := NUL;
            readBuf[checkedIdx] := NUL;
            checkedIdx := checkedIdx + 1;
            return LineOk, looks;
          }
          return LineBad, looks;
        }
        checkedIdx := checkedIdx + 1;
      }
      ScanEndUnique(old(View()), checkedIdx);
      return LineOpen, looks;
    }

    /** parse_request_line, in three parts that follow each other */
    method ParseRequestLine(text: nat) returns (code: HttpCode)
      requires InBounds(View()) && text <= checkedIdx && LineAt(View(), text, CStr(readBuf[..], text))
      modifies this`url, this`version, this`verb, this`cgi, this`state, readBuf
      ensures (code, View()) == HttpParser.ParseRequestLine(old(View()), text)
    {
      InPlaceIsScan(View(), text, CStr(readBuf[..], text));
      code := ReadMethod(text);
    }

    method ReadMethod(text: nat) returns (code: HttpCode)
      requires InBounds(View()) && text <= checkedIdx
      modifies this`url, this`version, this`verb, this`cgi, this`state, readBuf
      ensures (code, View()) == InPlaceMethod(old(View()), text)
    {
      hide InPlaceTarget, CStr, EqualFold;
      url := StrPBrk(readBuf[..], text);
      if url.None? {
        return BadRequest;
      }
      readBuf[url.value] := NUL;
      url := Some(url.value + 1);
      ghost var cut := View();
      assert cut.buf == old(readBuf[..])[url.value - 1 := NUL];
      if EqualFold(CStr(readBuf[..], text), "GET") {
        verb := GET;
      } else if EqualFold(CStr(readBuf[..], text), "POST") {
        verb := POST;
        cgi := true;
      } else {
        return BadRequest;
      }
      url := Some(url.value + Span(CStr(readBuf[..], url.value), BLANKS));
      code := ReadTarget();
    }

    method ReadTarget() returns (code: HttpCode)
      requires url.Some? && url.value <= readBuf.Length
      modifies this`url, this`version, this`state, readBuf
      ensures (code, View()) == InPlaceTarget(old(View()))
    {
      hide InPlaceUrl, CStr, EqualFold, Span;
      version := StrPBrk(readBuf[..], url.value);
      if version.None? {
        return BadRequest;
      }
      readBuf[version.value] := NUL;
      assert View().buf == old(readBuf[..])[version.value := NUL];
      version := Some(version.value + 1);
      version := Some(version.value + Span(CStr(readBuf[..], version.value), BLANKS));
      if !EqualFold(CStr(readBuf[..], version.value), "HTTP/1.1") {
        return BadRequest;
      }
      code := ResolveUrl();
    }

    /** The scheme, and the page for "/" */
    method ResolveUrl() returns (code: HttpCode)
      requires url.Some? && url.value <= readBuf.Length
      modifies this`url, this`state, readBuf
      ensures (code, View()) == InPlaceUrl(old(View()))
    {
      var offset := PathOffset(CStr(readBuf[..], url.value));
      if offset.None? {
        url := None;
        return BadRequest;
      }
      url := Some(url.value + offset.value);
      if url.value == readBuf.Length || readBuf[url.value] != '/' {
        return BadRequest;
      }
      if |CStr(readBuf[..], url.value)| == 1 {
        StrCatJudge(url.value);
      }
      state := Header;
      return NoRequest;
    }

    method StrCatJudge(p: nat)
      modifies readBuf
      ensures readBuf[..] == AppendJudge(old(readBuf[..]), p)
    {
      var end := p + 1 + |JUDGE|;
      if end < readBuf.Length {
        forall i | p < i < end {
          readBuf[i] := JUDGE[i - p - 1];
        }
        readBuf[end] := NUL;
      }
      SameChars(readBuf[..], AppendJudge(old(readBuf[..]), p));
    }

    method ParseHeaders(text: nat) returns (code: HttpCode)
      requires text < readBuf.Length
      modifies this`state, this`linger, this`contentLength, this`host
      ensures (code, View()) == HttpParser.ParseHeaders(old(View()), text)
    {
      var line := CStr(readBuf[..], text);
      if line == [] {
        if contentLength != 0 {
          state := Content;
          return NoRequest;
        }
        return GetRequest;
      } else if StartsFold(line, "Connection:") {
        if EqualFold(TrimLeft(line[11..]), "keep-alive") {
          linger := true;
        }
      } else if StartsFold(line, "Content-length:") {
        contentLength := ToInt32(Atol(TrimLeft(line[15..])));
      } else if StartsFold(line, "Host:") {
        host := Some(text + 5 + Span(line[5..], BLANKS));
      }
      return NoRequest;
    }

    method ParseContent(text: nat) returns (code: HttpCode)
      modifies this`body, readBuf
      ensures (code, View()) == HttpParser.ParseContent(old(View()), text)
    {
      if readIdx >= contentLength + checkedIdx {
        var end := text + contentLength;
        if 0 <= end < readBuf.Length {
          readBuf[end] := NUL;
        }
        body := Some(text);
        assert View().buf == HttpParser.ParseContent(old(View()), text).1.buf;
        return GetRequest;
      }
      return NoRequest;
    }

    /** One turn of the loop of process_read: the line at m_start_line goes to its parser. */
    method HandleLine() returns (code: HttpCode)
      requires if state == Content then IsValid() else LineEnded(View())
      modifies this, readBuf
      ensures (code, View()) == Dispatch(old(View()))
      ensures IsValid()
    {
      ghost var line := View();
      DispatchKeepsValid(line);
      var text := startLine;
      startLine := checkedIdx;
      match state {
        case RequestLine =>
          LineText(line);
          code := ParseRequestLine(text);
        case Header =>
          code := ParseHeaders(text);
        case Content =>
          code := ParseContent(text);
      }
    }

    /** process_read, where do_request() is left to the caller */
    method ProcessRead() returns (code: HttpCode, ghost looks: nat)
      requires IsValid()
      modifies this, readBuf
      ensures IsValid()
      ensures (code, View()) == HttpParser.ProcessRead(old(View()), AsWritten)
      ensures looks == ReadCost(old(View()), AsWritten)
    {
      hide HttpParser.ParseLine, Dispatch, ScanCost;
      var status := LineOk;
      looks := 0;
      while true
        invariant IsValid()
        invariant status != LineOk ==> state == Content
        invariant HttpParser.ProcessRead(old(View()), AsWritten) ==
          if status == LineOk then HttpParser.ProcessRead(View(), AsWritten) else Rescan(View())
        invariant looks + (if status == LineOk then ReadCost(View(), AsWritten) else RescanCost(View())) ==
          ReadCost(old(View()), AsWritten)
        decreases readIdx - checkedIdx, if status == LineOk then 1 else 0
      {
        if !(state == Content && status == LineOk) {
          ParseLineKeepsValid(View());
          ghost var more;
          status, more := ParseLine();
          looks := looks + more;
          if status != LineOk {
            return NoRequest, looks;
          }
        }
        var parsed := state;
        code := HandleLine();
        if code != NoRequest {
          return code, looks;
        }
        if parsed == Content {
          status := LineOpen;
        }
      }
    }

    /** One event after another: read_once, then process_read, until the first verdict */
    method ReadRequest(chunks: seq<seq<char>>) returns (code: HttpCode, used: nat, ghost looks: nat)
      requires IsValid() && Fits(View(), chunks)
      requires forall i | 0 <= i < |chunks| :: chunks[i] != []
      modifies this, readBuf
      ensures IsValid() && used <= |chunks|
      ensures Outcome(code, View(), chunks[used..]) == Serve(old(View()), chunks, AsWritten)
      ensures looks == ServeCost(old(View()), chunks, AsWritten)
    {
      hide HttpParser.ProcessRead, Feed, ReadCost;
      used, looks := 0, 0;
      while used < |chunks|
        invariant used <= |chunks| && IsValid() && Fits(View(), chunks[used..])
        invariant Serve(View(), chunks[used..], AsWritten) == Serve(old(View()), chunks, AsWritten)
        invariant looks + ServeCost(View(), chunks[used..], AsWritten) == ServeCost(old(View()), chunks, AsWritten)
      {
        ghost var rest := chunks[used..];
        ServeStep(View(), rest);
        var _ := ReadOnce(chunks[used]);
        ghost var more;
        code, more := ProcessRead();
        looks := looks + more;
        used := used + 1;
        assert rest[1..] == chunks[used..];
        if code != NoRequest {
          return code, used, looks;
        }
      }
      return NoRequest, used, looks;
    }
  }

  lemma ServeStep(c: Conn, chunks: seq<seq<char>>)
    requires InBounds(c) && Fits(c, chunks) && chunks != []
    ensures |chunks[0]| <= READ_BUFFER_SIZE - c.readIdx
    ensures var (code, r) := HttpParser.ProcessRead(Feed(c, chunks[0]), AsWritten);
      && Fits(r, chunks[1..])
      && Serve(c, chunks, AsWritten) ==
          (if code != NoRequest then Outcome(code, r, chunks[1..]) else Serve(r, chunks[1..], AsWritten))
      && ServeCost(c, chunks, AsWritten) ==
           ReadCost(Feed(c, chunks[0]), AsWritten) +
           if code != NoRequest then 0 else ServeCost(r, chunks[1..], AsWritten)
  {
    ServeFirst(c, chunks, AsWritten);
  }
}
