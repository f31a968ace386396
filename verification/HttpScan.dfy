/** What every step of the request parser keeps, and what its scanning costs. */
module HttpScan {
  import opened CString
  import opened Wrappers
  import opened HttpParser

  /** The case of a LF found after an already scanned CR never succeeds. */
  lemma LineFeedCaseIsDead(c: Conn)
    requires Valid(c)
    ensures var q := ScanEnd(c); q > 0 ==> c.buf[q - 1] != CR
  {
    ScanEndIs(c);
    var q := ScanEnd(c);
    assert q > c.checkedIdx ==> c.buf[q - 1] !in EOLS;
  }

  lemma ParseLineKeepsValid(c: Conn)
    requires Valid(c)
    ensures var (status, line) := ParseLine(c);
      && line.buf[..c.checkedIdx] == c.buf[..c.checkedIdx]
      && line.buf[line.readIdx..] == c.buf[line.readIdx..]
      && (status != LineOk ==> Valid(line) && line.buf == c.buf)
      && (status == LineOk ==> LineEnded(line) && line.checkedIdx >= c.checkedIdx + 2)
  {
    ScanEndIs(c);
    LineFeedCaseIsDead(c);
  }

  /**
   The first line end among the unread bytes decides: CR LF is a line, a CR that comes last is open, the rest is
   bad.
  */
  lemma StatusAt(c: Conn, i: nat)
    requires Valid(c) && c.checkedIdx <= i < c.readIdx && c.buf[i] in EOLS
    requires forall k | c.checkedIdx <= k < i :: c.buf[k] !in EOLS
    ensures ParseLine(c).0 ==
      if c.buf[i] == LF then LineBad
      else if i + 1 == c.readIdx then LineOpen
      else if c.buf[i + 1] == LF then LineOk else LineBad
  {
    ScanEndUnique(c, i);
    LineFeedCaseIsDead(c);
  }

  lemma StatusWithoutEnd(c: Conn)
    requires Valid(c) && forall k | c.checkedIdx <= k < c.readIdx :: c.buf[k] !in EOLS
    ensures ParseLine(c).0 == LineOpen
  {
    ScanEndUnique(c, c.readIdx);
  }

  /** A line has just been found: it ends in the two NULs that replaced CR LF. */
  ghost predicate LineEnded(c: Conn) {
    && InBounds(c)
    && c.startLine + 2 <= c.checkedIdx
    && c.buf[c.checkedIdx - 2] == NUL && c.buf[c.checkedIdx - 1] == NUL
    && forall i | c.startLine <= i < c.checkedIdx :: c.buf[i] !in EOLS
  }

  lemma LineText(c: Conn)
    requires LineEnded(c)
    ensures c.startLine + |CStr(c.buf, c.startLine)| + 2 <= c.checkedIdx
  {
    CStrIs(c.buf, c.startLine);
    assert c.buf[c.checkedIdx - 2] == NUL;
  }

  lemma CutStaysInLine(buf: seq<char>, text: nat, t: seq<char>, scan: RequestLineScan, end: nat)
    requires text + |t| + 2 <= end <= |buf| && buf[end - 1] == NUL && Placed(scan, t)
    ensures var r := CutRequestLine(buf, text, scan);
      && (forall i | 0 <= i < text || end <= i < |buf| :: r[i] == buf[i])
      && (forall i | text <= i < end :: r[i] == buf[i] || r[i] !in EOLS)
      && r[end - 1] == NUL
  {
    if scan.Good? && scan.url + 1 == scan.targetEnd {
      var url := text + scan.url;
      assert url + 2 + |JUDGE| <= end;
      var cut := buf[text + scan.methodEnd := NUL][text + scan.targetEnd := NUL];
      var r := AppendJudge(cut, url);
      forall i | url < i < url + 2 + |JUDGE| ensures r[i] !in EOLS {
        assert i < url + 1 + |JUDGE| ==> r[i] == r[url + 1..url + 1 + |JUDGE|][i - url - 1] == JUDGE[i - url - 1];
      }
    }
  }

  /**
   Parsing the request line writes only between the start of the line and m_checked_idx; in particular
   "judge.html" and its NUL fit over the delimiter, "HTTP/1.1" and the two NULs that ended the line.
  */
  lemma RequestLineStaysInLine(c: Conn)
    requires LineEnded(c)
    ensures var r := ParseRequestLine(c, c.startLine).1;
      && (forall i | 0 <= i < c.startLine || c.checkedIdx <= i < |c.buf| :: r.buf[i] == c.buf[i])
      && (forall i | c.startLine <= i < c.checkedIdx :: r.buf[i] !in EOLS)
      && r.buf[c.checkedIdx - 1] == NUL
  {
    LineText(c);
    var t := CStr(c.buf, c.startLine);
    CutStaysInLine(c.buf, c.startLine, t, ScanRequestLine(t), c.checkedIdx);
  }

  lemma DispatchKeepsValid(c: Conn)
    requires if c.state == Content then Valid(c) else LineEnded(c)
    ensures Valid(Dispatch(c).1)
    ensures forall i | c.checkedIdx <= i < |c.buf| :: c.state != Content ==> Dispatch(c).1.buf[i] == c.buf[i]
  {
    if c.state == RequestLine {
      RequestLineStaysInLine(c);
    }
  }

  /** Cursor order and the scanner invariant hold at the start and after every call of process_read. */
  lemma {:induction false} ProcessReadKeepsValid(c: Conn, test: LoopTest)
    requires Valid(c)
    ensures Valid(ProcessRead(c, test).1)
    decreases c.readIdx - c.checkedIdx
  {
    ParseLineKeepsValid(c);
    var (status, line) := if c.state == Content then (LineOk, c) else ParseLine(c);
    if status == LineOk {
      DispatchKeepsValid(line);
      var (code, next) := Dispatch(line);
      if code == NoRequest && c.state != Content {
        ProcessReadKeepsValid(next, test);
      } else if code == NoRequest && test == AsWritten {
        RescanKeepsValid(next);
      }
    }
  }

  lemma {:induction false} RescanKeepsValid(c: Conn)
    requires Valid(c) && c.state == Content
    ensures Valid(Rescan(c).1)
    decreases c.readIdx - c.checkedIdx
  {
    ParseLineKeepsValid(c);
    var (status, line) := ParseLine(c);
    if status == LineOk {
      DispatchKeepsValid(line);
      var (code, next) := Dispatch(line);
      if code == NoRequest {
        RescanKeepsValid(next);
      }
    }
  }

  // ----- the cost of scanning -----

  /** The read of the neighbouring byte by which parse_line judges a line end at `q` */
  function LookAhead(c: Conn, q: nat): nat
    requires InBounds(c) && q < c.readIdx
  {
    if c.buf[q] == CR then if q + 1 < c.readIdx then 1 else 0
    else if q > 1 then 1 else 0
  }

  /** What parse_line reads at the place where it stops without moving over it */
  function ReadsAt(c: Conn, q: nat): nat
    requires InBounds(c) && q <= c.readIdx
  {
    if q == c.readIdx then 0 else 1 + LookAhead(c, q)
  }

  /** How many times one call of parse_line reads a byte of m_read_buf */
  function ScanCost(c: Conn): (n: nat)
    requires InBounds(c)
  {
    ScanEnd(c) - c.checkedIdx + ReadsAt(c, ScanEnd(c))
  }

  /** How many times parse_line reads a byte during one call of process_read */
  function ReadCost(c: Conn, test: LoopTest): nat
    requires InBounds(c)
    decreases c.readIdx - c.checkedIdx
  {
    var (status, line) := if c.state == Content then (LineOk, c) else ParseLine(c);
    var cost := if c.state == Content then 0 else ScanCost(c);
    if status != LineOk then cost
    else
      var (code, next) := Dispatch(line);
      if code != NoRequest then cost
      else if c.state != Content then cost + ReadCost(next, test)
      else if test == Repaired then cost
      else cost + RescanCost(next)
  }

  function RescanCost(c: Conn): nat
    requires InBounds(c) && c.state == Content
    decreases c.readIdx - c.checkedIdx
  {
    var (status, line) := ParseLine(c);
    if status != LineOk then ScanCost(c)
    else
      var (code, next) := Dispatch(line);
      ScanCost(c) + if code != NoRequest then 0 else RescanCost(next)
  }

  /** A line costs what it moves m_checked_idx; a scan without a line costs the reads at its end as well. */
  lemma LineCost(c: Conn)
    requires Valid(c)
    ensures var (status, line) := ParseLine(c);
      ScanCost(c) == line.checkedIdx - c.checkedIdx + if status == LineOk then 0 else ReadsAt(line, line.checkedIdx)
  {
    LineFeedCaseIsDead(c);
    ScanEndIs(c);
  }

  /** Whether a call of process_read with this result ended with a scan that found no line */
  predicate EndsInScan(r: (HttpCode, Conn), test: LoopTest) {
    r.0 == NoRequest && (test == AsWritten || r.1.state != Content)
  }

  /** The reads of a call beyond its progress */
  function Surplus(r: (HttpCode, Conn), test: LoopTest): nat
    requires InBounds(r.1)
  {
    if EndsInScan(r, test) then ReadsAt(r.1, r.1.checkedIdx) else 0
  }

  /** One call of process_read reads as many bytes as it moves m_checked_idx, and those at the end of its last scan. */
  lemma {:induction false} ReadCostIs(c: Conn, test: LoopTest)
    requires Valid(c)
    ensures ReadCost(c, test) == ProcessRead(c, test).1.checkedIdx - c.checkedIdx + Surplus(ProcessRead(c, test), test)
    decreases c.readIdx - c.checkedIdx
  {
    hide ReadsAt, ScanCost;
    ParseLineKeepsValid(c);
    LineCost(c);
    var (status, line) := if c.state == Content then (LineOk, c) else ParseLine(c);
    if status == LineOk {
      DispatchKeepsValid(line);
      var (code, next) := Dispatch(line);
      if code == NoRequest && c.state != Content {
        ReadCostIs(next, test);
      } else if code == NoRequest && test == AsWritten {
        RescanCostIs(next);
      }
    }
  }

  lemma {:induction false} RescanCostIs(c: Conn)
    requires Valid(c) && c.state == Content
    ensures RescanCost(c) == Rescan(c).1.checkedIdx - c.checkedIdx + Surplus(Rescan(c), AsWritten)
    decreases c.readIdx - c.checkedIdx
  {
    hide ReadsAt, ScanCost;
    ParseLineKeepsValid(c);
    LineCost(c);
    var (status, line) := ParseLine(c);
    if status == LineOk {
      DispatchKeepsValid(line);
      var (code, next) := Dispatch(line);
      if code == NoRequest {
        RescanCostIs(next);
      }
    }
  }

  /** The call has stopped at a line end that is neither CR LF nor a CR at the end of the input. */
  predicate StopsBadly(r: (HttpCode, Conn), test: LoopTest)
    requires InBounds(r.1)
  {
    var c := r.1;
    EndsInScan(r, test) && c.checkedIdx < c.readIdx && !(c.buf[c.checkedIdx] == CR && c.checkedIdx + 1 == c.readIdx)
  }

  /** At most one read beyond the progress, and one more at a bad line end */
  lemma SurplusBound(r: (HttpCode, Conn), test: LoopTest)
    requires InBounds(r.1)
    ensures Surplus(r, test) <= if StopsBadly(r, test) then 2 else 1
  {
  }
}
