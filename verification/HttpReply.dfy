/** The reply that process_write puts into m_write_buf, and what a reader of it finds. */
module HttpReply {
  import opened CString
  import opened Wrappers
  import opened HttpParser
  import opened HttpReference
  import opened HttpLines
  import opened HttpRoundTrip
  import HttpSend

  const WRITE_BUFFER_SIZE: nat := 1024

  const ERROR_403_FORM := "You do not have permission to get file form this server.\n"
  const ERROR_404_FORM := "The requested file was not found on this server.\n"
  const ERROR_500_FORM := "There was an unusual problem serving the request file.\n"
  const EMPTY_PAGE := "<html><body></body></html>"

  /** Whether add_response accepts `s` behind `text` */
  predicate HasRoom(text: seq<char>, s: seq<char>) {
    |text| < WRITE_BUFFER_SIZE && |s| < WRITE_BUFFER_SIZE - 1 - |text|
  }

  /** add_response accepts a text exactly if its characters and a NUL fit into the buffer without its last byte. */
  lemma RoomIsForTheNul(text: seq<char>, s: seq<char>)
    ensures HasRoom(text, s) <==> |text + s| + 1 <= 1023
  {
  }

  /** m_write_buf up to m_write_idx after add_response(s) */
  function AddResponse(text: seq<char>, s: seq<char>): seq<char> {
    if HasRoom(text, s) then text + s else text
  }

  /** "%d" */
  function PrintInt(n: int): seq<char> {
    if n < 0 then "-" + Decimal(-n) else Decimal(n)
  }

  function StatusLine(status: nat, title: seq<char>): seq<char> {
    "HTTP/1.1 " + Decimal(status) + " " + title + CRLF
  }

  function LengthHeader(length: int): seq<char> {
    "Content-Length:" + PrintInt(length) + CRLF
  }

  function LingerHeader(linger: bool): seq<char> {
    "Connection:" + (if linger then "keep-alive" else "close") + CRLF
  }

  /** add_headers, whose calls of add_response go unchecked */
  function AddHeaders(text: seq<char>, length: int, linger: bool): seq<char> {
    AddResponse(AddResponse(AddResponse(text, LengthHeader(length)), LingerHeader(linger)), CRLF)
  }

  /** Status, title and form of the pages that report an error */
  function ErrorPage(code: HttpCode): Option<(nat, seq<char>, seq<char>)> {
    match code
    case InternalError => Some((500, "Internal Error", ERROR_500_FORM))
    case BadRequest => Some((404, "Not Found", ERROR_404_FORM))
    case ForbiddenRequest => Some((403, "Forbidden", ERROR_403_FORM))
    case _ => None
  }

  /**
   What process_write leaves: its result, m_write_buf up to m_write_idx, m_iv_count, m_iv[1].iov_len and
   bytes_to_send
  */
  datatype Reply = Reply(ok: bool, text: seq<char>, ivCount: nat, len1: nat, toSend: int)

  /** process_write on a reset connection; when it fails, only the text is meant. */
  function ProcessWrite(code: HttpCode, linger: bool, size: nat): Reply {
    match ErrorPage(code)
    case Some((status, title, form)) =>
      var text := AddHeaders(AddResponse([], StatusLine(status, title)), |form|, linger);
      var whole := AddResponse(text, form);
      Reply(HasRoom(text, form), whole, 1, 0, |whole|)
    case None =>
      if code != FileRequest then Reply(false, [], 0, 0, 0)
      else
        var text := AddResponse([], StatusLine(200, "OK"));
        if size != 0 then
          var text := AddHeaders(text, ToInt32(size), linger);
          Reply(true, text, 2, size, ToInt32(|text| + size))
        else
          Reply(false, AddResponse(AddHeaders(text, |EMPTY_PAGE|, linger), EMPTY_PAGE), 0, 0, 0)
  }

  // ----- nothing overflows -----

  function ReplyHead(status: nat, title: seq<char>, length: int, linger: bool): seq<char> {
    StatusLine(status, title) + LengthHeader(length) + LingerHeader(linger) + CRLF
  }

  lemma PrintIntLength(n: int)
    requires -INT_MAX - 1 <= n <= INT_MAX
    ensures 1 <= |PrintInt(n)| <= 11
  {
    assert Pow10(10) == 10_000_000_000;
    DecimalLength(if n < 0 then -n else n, 10, Pow10(10));
  }

  lemma LineLengths(status: nat, title: seq<char>, length: int, linger: bool)
    requires status < 1000 && |title| <= 14 && -INT_MAX - 1 <= length <= INT_MAX
    ensures 0 < |StatusLine(status, title)| <= 29 && |LengthHeader(length)| <= 28 && |LingerHeader(linger)| <= 23
  {
    assert Pow10(3) == 1000;
    DecimalLength(status, 3, 1000);
    PrintIntLength(length);
  }

  /** Every part of a reply head is accepted. */
  lemma HeaderFits(status: nat, title: seq<char>, length: int, linger: bool)
    requires status < 1000 && |title| <= 14 && -INT_MAX - 1 <= length <= INT_MAX
    ensures var head := ReplyHead(status, title, length, linger);
      AddHeaders(AddResponse([], StatusLine(status, title)), length, linger) == head && 0 < |head| < 120
  {
    hide StatusLine, LengthHeader, LingerHeader;
    LineLengths(status, title, length, linger);
    assert [] + StatusLine(status, title) == StatusLine(status, title);
  }

  // ----- what a reader finds -----

  /** The reply on the wire: head, then form or file */
  function Body(code: HttpCode, file: seq<char>): seq<char> {
    match ErrorPage(code) case Some((_, _, form)) => form case None => file
  }

  lemma LengthLineRead(n: nat)
    requires n <= INT_MAX
    ensures ScanHeader("Content-Length:" + Decimal(n)) == Length(n)
  {
    hide ScanHeader, Atol;
    var t := "Content-Length:" + Decimal(n);
    assert t[15..] == Decimal(n);
    SpanUnique(t[15..], BLANKS, 0);
    assert TrimLeft(t[15..]) == Decimal(n)[0..] == Decimal(n);
    assert t[..15] == "Content-Length:";
    LengthField(t, Decimal(n));
    AtolDecimal(n);
  }

  lemma LingerLineRead(linger: bool)
    ensures ScanHeader("Connection:" + if linger then "keep-alive" else "close") == if linger then KeepAlive
      else Ignored
  {
    var v := if linger then "keep-alive" else "close";
    var t := "Connection:" + v;
    assert t[..11] == "Connection:";
    assert t[11..] == v;
    SpanUnique(v, BLANKS, 0);
    assert v[0..] == v;
  }

  /** The header lines of a reply, read as the server reads header lines, give its length and persistence back. */
  lemma HeadersReadBack(r: Request, length: nat, linger: bool, body: seq<char>)
    requires length <= INT_MAX && !r.linger
    ensures ReadHeaders(r, LengthHeader(length) + LingerHeader(linger) + CRLF + body) ==
      ReadBody(r.(contentLength := length, linger := linger), body)
  {
    hide ScanHeader, ReadBody, SplitLine, Text;
    var lengthLine := "Content-Length:" + Decimal(length);
    var lingerLine := "Connection:" + if linger then "keep-alive" else "close";
    var lines := [lengthLine, lingerLine];
    assert PrintLines(lines[1..]) == lingerLine + CRLF + PrintLines(lines[1..][1..]);
    assert PrintLines(lines) == lengthLine + CRLF + (lingerLine + CRLF);
    assert LengthHeader(length) + LingerHeader(linger) + CRLF + body == PrintLines(lines) + CRLF + body;
    DecimalIsClean(length);
    PrintedHeaders(r, lines, body);
    LengthLineRead(length);
    LingerLineRead(linger);
    FoldOne(r, lengthLine, [lingerLine]);
    FoldOne(AddHeader(r, lengthLine), lingerLine, []);
    assert lines == [lengthLine] + [lingerLine] && [lingerLine] == [lingerLine] + [];
  }

  // ----- the main results -----

  /** The codes that process_write answers: the three error pages, and a file that is not empty */
  predicate Answered(code: HttpCode, size: nat) {
    code in {InternalError, BadRequest, ForbiddenRequest} || (code == FileRequest && size > 0)
  }

  /** The first line that a client receives for an answered code */
  function FirstLine(code: HttpCode): seq<char> {
    match code
    case InternalError => "HTTP/1.1 500 Internal Error"
    case BadRequest => "HTTP/1.1 404 Not Found"
    case ForbiddenRequest => "HTTP/1.1 403 Forbidden"
    case _ => "HTTP/1.1 200 OK"
  }

  /** The body that a client receives */
  function Page(code: HttpCode, file: seq<char>): seq<char> {
    match code
    case InternalError => "There was an unusual problem serving the request file.\n"
    case BadRequest => "The requested file was not found on this server.\n"
    case ForbiddenRequest => "You do not have permission to get file form this server.\n"
    case _ => file
  }

  /** The whole reply, byte for byte */
  function WholeReply(code: HttpCode, linger: bool, file: seq<char>): seq<char> {
    FirstLine(code) + "\r\n" + "Content-Length:" + Decimal(|Page(code, file)|) + "\r\n" +
    "Connection:" + (if linger then "keep-alive" else "close") + "\r\n" + "\r\n" + Page(code, file)
  }

  function StatusOf(code: HttpCode): (nat, seq<char>) {
    match ErrorPage(code) case Some((status, title, _)) => (status, title) case None => (200, "OK")
  }

  lemma PagesAreSmall(code: HttpCode)
    ensures |StatusOf(code).1| <= 14 && StatusOf(code).0 < 1000 && Clean(StatusOf(code).1)
    ensures ErrorPage(code).Some? ==> 0 < |ErrorPage(code).value.2| < 100
  {
  }

  /**
   process_write succeeds exactly on those codes. Then no add_response overflowed, the buffer holds the head
   followed by the form, and the two segments are bytes_to_send long.
  */
  lemma Framing(code: HttpCode, linger: bool, size: nat)
    requires FitsInt(code, linger, size)
    ensures ProcessWrite(code, linger, size).ok <==> Answered(code, size)
    ensures Answered(code, size) ==>
      var r := ProcessWrite(code, linger, size);
      var page := ErrorPage(code);
      var length := if page.Some? then |page.value.2| else size;
      && r.text == ReplyHead(StatusOf(code).0, StatusOf(code).1, length, linger) + (if page.Some? then page.value.2
          else [])
      && 0 < |r.text| < WRITE_BUFFER_SIZE
      && r.ivCount == (if page.Some? then 1 else 2)
      && |r.text| + (if page.Some? then 0 else r.len1) == r.toSend
      && (page.None? ==> r.len1 == size)
  {
    hide ReplyHead, AddHeaders, StatusLine;
    PagesAreSmall(code);
    var page := ErrorPage(code);
    if Answered(code, size) {
      HeaderFits(StatusOf(code).0, StatusOf(code).1, if page.Some? then |page.value.2| else size, linger);
    }
    if page.None? {
      assert ReplyHead(200, "OK", size, linger) + [] == ReplyHead(200, "OK", size, linger);
    }
  }

  /**
   The counts and segments that an answered process_write leaves for write(); without a file the second segment
   is an old one.
  */
  ghost predicate Begins(s: HttpSend.Sending, code: HttpCode, linger: bool, size: nat) {
    var r := ProcessWrite(code, linger, size);
    && s.headerLen == s.len0 == |r.text| && s.base0 == 0 && s.ivCount == r.ivCount && s.toSend == r.toSend
    && (r.ivCount == 2 ==> s.base1 == 0 && s.len1 == r.len1)
    && s.have == 0 && s.wire == []
  }

  /** What follows the head: the mapped file, if there is one */
  function Mapped(code: HttpCode, file: seq<char>): seq<char> {
    if code == FileRequest then file else []
  }

  predicate FitsInt(code: HttpCode, linger: bool, size: nat) {
    code == FileRequest ==> |ReplyHead(200, "OK", size, linger)| + size <= INT_MAX
  }

  /** An answered reply leaves write() at the start of a delivery. */
  lemma StartsOnTrack(s: HttpSend.Sending, code: HttpCode, linger: bool, size: nat)
    requires Answered(code, size) && FitsInt(code, linger, size) && Begins(s, code, linger, size)
    ensures HttpSend.OnTrack(s, s.headerLen, if code == FileRequest then size else 0) && s.headerLen > 0
  {
    hide ProcessWrite, ReplyHead;
    Framing(code, linger, size);
  }

  /**
   From process_write to the wire: if at most one result stops inside the header, what has been handed over
   is a prefix of the reply; on completion it is the reply, and reads back as such.
  */
  lemma ReplyDelivered(s: HttpSend.Sending, counts: seq<nat>, code: HttpCode, linger: bool, file: seq<char>, r: Request)
    requires Answered(code, |file|) && FitsInt(code, linger, |file|) && Begins(s, code, linger, |file|)
    requires !r.linger && r.body == []
    ensures HttpSend.InsideHeader(s, counts, HttpSend.AsCoded) <= 1 ==>
      var text, rest := ProcessWrite(code, linger, |file|).text, Mapped(code, file);
      var (progress, t) := HttpSend.Deliver(s, counts, HttpSend.AsCoded);
      var sent := HttpSend.Bytes(t.wire, text, rest);
      && sent <= text + rest
      && (progress == HttpSend.Done ==>
            sent == text + rest && ReadsBack(sent, code, linger, file, r))
  {
    hide ProcessWrite, ReplyHead, HttpSend.Deliver, HttpSend.InsideHeader, HttpSend.OnTrack, HttpSend.Bytes,
        ReadsBack, ErrorPage;
    var text, rest := ProcessWrite(code, linger, |file|).text, Mapped(code, file);
    StartsOnTrack(s, code, linger, |file|);
    if HttpSend.InsideHeader(s, counts, HttpSend.AsCoded) <= 1 {
      HttpSend.BytesDelivered(s, counts, text, rest);
    }
    ReplyReadsBack(code, linger, file, r);
    PageOrFile(code, |file|);
  }

  /**
   Every file reply can go wrong: after two results of one byte each it completes without the last byte of its
   head, and with the last byte of the file sent twice.
  */
  lemma FileMisdelivered(s: HttpSend.Sending, linger: bool, file: seq<char>)
    requires file != [] && FitsInt(FileRequest, linger, |file|) && Begins(s, FileRequest, linger, |file|)
    ensures var text := ProcessWrite(FileRequest, linger, |file|).text;
      var counts := [1, 1, |text| + |file|, 1];
      var (progress, t) := HttpSend.Deliver(s, counts, HttpSend.AsCoded);
      && progress == HttpSend.Done && HttpSend.InsideHeader(s, counts, HttpSend.AsCoded) == 2
      && |text| >= 4
      && HttpSend.Bytes(t.wire, text, file) == text[..|text| - 1] + file + [file[|file| - 1]]
      && t.wire != HttpSend.Expected(|text|, |file|)
  {
    hide ProcessWrite, HttpSend.Deliver, HttpSend.InsideHeader, HttpSend.OnTrack, ReplyHead;
    var text := ProcessWrite(FileRequest, linger, |file|).text;
    StartsOnTrack(s, FileRequest, linger, |file|);
    Framing(FileRequest, linger, |file|);
    HeadIsLong(|file|, linger);
    HttpSend.MisdeliveredReply(s, |text|, |file|);
    MisdeliveredBytes(text, file);
  }

  lemma HeadIsLong(length: int, linger: bool)
    ensures |ReplyHead(200, "OK", length, linger)| >= 4
  {
    hide Decimal, LengthHeader, LingerHeader;
    assert |StatusLine(200, "OK")| >= 4;
  }

  lemma MisdeliveredBytes(text: seq<char>, file: seq<char>)
    requires text != [] && file != []
    ensures HttpSend.Bytes(HttpSend.Misdelivered(|text|, |file|), text, file) ==
      text[..|text| - 1] + file + [file[|file| - 1]]
  {
  }

  lemma PageOrFile(code: HttpCode, size: nat)
    requires Answered(code, size)
    ensures ErrorPage(code).Some? <==> code != FileRequest
  {
  }

  /** The counts of a file reply are right exactly if head and file together fit an int. */
  lemma FileFramingExactly(linger: bool, size: nat)
    requires size > 0
    ensures var r := ProcessWrite(FileRequest, linger, size);
      (r.text == ReplyHead(200, "OK", size, linger) && r.toSend == |r.text| + r.len1) <==>
      |ReplyHead(200, "OK", size, linger)| + size <= INT_MAX
  {
    hide ReplyHead, AddHeaders, StatusLine;
    HeaderFits(200, "OK", ToInt32(size), linger);
  }

  /**
   `sent` is the reply that belongs to the code. A reader finds its first line, and behind that the length of the
   body, its persistence and the body.
  */
  ghost predicate ReadsBack(sent: seq<char>, code: HttpCode, linger: bool, file: seq<char>, r: Request) {
    var body := Page(code, file);
    && sent == WholeReply(code, linger, file)
    && SplitLine(sent).Some? && SplitLine(sent).value.0 == FirstLine(code)
    && ReadHeaders(r, SplitLine(sent).value.1) ==
         Complete(r.(contentLength := |body|, linger := linger, body := Text(body)))
  }

  lemma ThreeDigits()
    ensures Decimal(500) == "500" && Decimal(404) == "404" && Decimal(403) == "403" && Decimal(200) == "200"
  {
    assert Decimal(5) == "5" && Decimal(4) == "4" && Decimal(2) == "2";
    assert Decimal(50) == "50" && Decimal(40) == "40" && Decimal(20) == "20";
  }

  lemma StatusLines()
    ensures StatusLine(500, "Internal Error") == "HTTP/1.1 500 Internal Error" + CRLF
    ensures StatusLine(404, "Not Found") == "HTTP/1.1 404 Not Found" + CRLF
    ensures StatusLine(403, "Forbidden") == "HTTP/1.1 403 Forbidden" + CRLF
    ensures StatusLine(200, "OK") == "HTTP/1.1 200 OK" + CRLF
  {
    hide Decimal;
    ThreeDigits();
    assert "HTTP/1.1 " + "500" + " " + "Internal Error" == "HTTP/1.1 500 Internal Error";
    assert "HTTP/1.1 " + "404" + " " + "Not Found" == "HTTP/1.1 404 Not Found";
    assert "HTTP/1.1 " + "403" + " " + "Forbidden" == "HTTP/1.1 403 Forbidden";
    assert "HTTP/1.1 " + "200" + " " + "OK" == "HTTP/1.1 200 OK";
  }

  /** What the tables of process_write give for each answered code */
  lemma TablesAreRight(code: HttpCode, file: seq<char>)
    requires Answered(code, |file|)
    ensures Body(code, file) == Page(code, file) && Clean(FirstLine(code))
    ensures StatusLine(StatusOf(code).0, StatusOf(code).1) == FirstLine(code) + CRLF
  {
    hide StatusLine, Clean;
    StatusLines();
    FirstLineIsClean(code);
  }

  lemma FirstLineIsClean(code: HttpCode)
    ensures Clean(FirstLine(code))
  {
  }

  /** Read as the server reads header lines, a reply gives its parts back. */
  lemma ReplyReadsBack(code: HttpCode, linger: bool, file: seq<char>, r: Request)
    requires Answered(code, |file|) && !r.linger && r.body == []
    requires FitsInt(code, linger, |file|)
    ensures ReadsBack(ProcessWrite(code, linger, |file|).text + Mapped(code, file), code, linger, file, r)
  {
    hide ReplyHead, AddHeaders, StatusLine, LengthHeader, LingerHeader, SplitLine, ReadHeaders, ProcessWrite;
    hide FirstLine, Page, WholeReply, Body, StatusOf, Clean;
    var body := Body(code, file);
    var (status, title) := StatusOf(code);
    PagesAreSmall(code);
    TablesAreRight(code, file);
    Framing(code, linger, |file|);
    var rest := LengthHeader(|body|) + LingerHeader(linger) + CRLF + body;
    SplitPrinted(FirstLine(code), rest);
    BodyFits(code, linger, file);
    HeadersReadBack(r, |body|, linger, body);
    SentParts(code, linger, file);
    assert body[..|body|] == body;
    HeaderParts(status, title, |body|, linger, body);
    WholeParts(code, linger, file);
  }

  lemma BodyFits(code: HttpCode, linger: bool, file: seq<char>)
    requires Answered(code, |file|) && FitsInt(code, linger, |file|)
    ensures |Body(code, file)| <= INT_MAX
  {
    hide ReplyHead;
    PagesAreSmall(code);
  }

  /** What is sent is the head and then the form or the file. */
  lemma SentParts(code: HttpCode, linger: bool, file: seq<char>)
    requires Answered(code, |file|) && FitsInt(code, linger, |file|)
    ensures ProcessWrite(code, linger, |file|).text + Mapped(code, file) ==
      ReplyHead(StatusOf(code).0, StatusOf(code).1, |Body(code, file)|, linger) + Body(code, file)
  {
    hide ReplyHead, ProcessWrite;
    Framing(code, linger, |file|);
  }

  lemma WholeParts(code: HttpCode, linger: bool, file: seq<char>)
    ensures WholeReply(code, linger, file) ==
      FirstLine(code) + CRLF + (LengthHeader(|Page(code, file)|) + LingerHeader(linger) + CRLF + Page(code, file))
  {
    hide FirstLine, Page, Decimal;
  }

  lemma HeaderParts(status: nat, title: seq<char>, length: int, linger: bool, body: seq<char>)
    ensures ReplyHead(status, title, length, linger) + body ==
      StatusLine(status, title) + (LengthHeader(length) + LingerHeader(linger) + CRLF + body)
  {
  }
}
