/** The response side of http_conn as an object: m_write_buf filled in place, and write() resumed over many calls. */
module HttpResponder {
  import opened CString
  import opened Wrappers
  import opened HttpParser
  import opened HttpReference
  import opened HttpReply
  import opened HttpSend

  /** What epoll is asked to watch for next, if anything */
  datatype Arming = NotArmed | ForRead | ForWrite

  class HttpResponder {
    const writeBuf: array<char>
    var writeIdx: nat
    var base0: nat
    var len0: nat
    var base1: int
    var len1: int
    var ivCount: nat
    var bytesToSend: int
    var bytesHaveSend: nat
    var linger: bool
    /** The bytes the socket has accepted since the reply was built */
    ghost var wire: seq<Cell>

    ghost predicate Valid()
      reads this
    {
      writeBuf.Length == WRITE_BUFFER_SIZE && writeIdx < WRITE_BUFFER_SIZE
    }

    ghost function Text(): seq<char>
      requires Valid()
      reads this, writeBuf
    {
      writeBuf[..writeIdx]
    }

    ghost function View(): Sending
      reads this
    {
      Sending(writeIdx, base0, len0, base1, len1, ivCount, bytesToSend, bytesHaveSend, wire)
    }

    constructor ()
      ensures Valid() && fresh(writeBuf) && Text() == [] && bytesToSend == 0 && bytesHaveSend == 0 && wire == []
    {
      writeBuf := new char[WRITE_BUFFER_SIZE](i => NUL);
      writeIdx, base0, len0, base1, len1, ivCount := 0, 0, 0, 0, 0, 0;
      bytesToSend, bytesHaveSend, linger := 0, 0, false;
      wire := [];
    }

    /** init(): the iovec entries keep their old values. */
    method Init()
      requires Valid()
      modifies this`bytesToSend, this`bytesHaveSend, this`linger, this`writeIdx, writeBuf
      ensures Valid() && Text() == [] && bytesToSend == 0 && bytesHaveSend == 0 && !linger
    {
      bytesToSend, bytesHaveSend, linger := 0, 0, false;
      writeIdx := 0;
      forall i | 0 <= i < writeBuf.Length {
        writeBuf[i] := NUL;
      }
    }

    /** add_response with the text that vsnprintf formats; what it cuts off is lost. */
    method AddResponse(s: seq<char>) returns (ok: bool)
      requires Valid()
      modifies this`writeIdx, writeBuf
      ensures Valid()
      ensures ok == HasRoom(old(Text()), s)
      ensures Text() == HttpReply.AddResponse(old(Text()), s)
      ensures ok ==> writeBuf[writeIdx] == NUL
    {
      var room := WRITE_BUFFER_SIZE - 1 - writeIdx;
      var start := writeIdx;
      var kept := if |s| < room then |s| else if room == 0 then 0 else room - 1;
      forall i | start <= i < start + kept {
        writeBuf[i] := s[i - start];
      }
      if room > 0 {
        writeBuf[start + kept] := NUL;
      }
      if |s| >= room {
        assert Text() == old(Text());
        return false;
      }
      writeIdx := writeIdx + |s|;
      assert Text() == old(Text()) + s;
      return true;
    }

    method AddHeaders(length: int)
      requires Valid()
      modifies this`writeIdx, writeBuf
      ensures Valid()
      ensures Text() == HttpReply.AddHeaders(old(Text()), length, linger)
    {
      var _ := AddResponse(LengthHeader(length));
      var _ := AddResponse(LingerHeader(linger));
      var _ := AddResponse(CRLF);
    }

    /** process_write; `size` is the size of the requested file. */
    method ProcessWrite(code: HttpCode, size: nat) returns (ok: bool)
      requires Valid() && Text() == []
      modifies this, writeBuf
      ensures Valid() && linger == old(linger) && bytesHaveSend == old(bytesHaveSend) && wire == []
      ensures var r := HttpReply.ProcessWrite(code, linger, size);
        && ok == r.ok && Text() == r.text
        && (if ok then base0 == 0 && len0 == writeIdx && ivCount == r.ivCount && bytesToSend == r.toSend
            else base0 == old(base0) && len0 == old(len0) && ivCount == old(ivCount) && bytesToSend == old(bytesToSend))
        && (if ok && r.ivCount == 2 then base1 == 0 && len1 == r.len1 else base1 == old(base1) && len1 == old(len1))
    {
      hide StatusLine, HttpReply.AddHeaders, HttpReply.AddResponse, HasRoom, ToInt32;
      wire := [];
      var page := ErrorPage(code);
      if page.Some? {
        ok := WritePage(page.value.0, page.value.1, page.value.2);
        if !ok {
          return false;
        }
      } else if code == FileRequest {
        if size != 0 {
          WriteHead(200, "OK", ToInt32(size));
          base0, len0 := 0, writeIdx;
          base1, len1 := 0, size;
          ivCount := 2;
          bytesToSend := ToInt32(writeIdx + size);
          return true;
        } else {
          // the source has no break after this case and reaches the default case, which returns false
          ok := WritePage(200, "OK", EMPTY_PAGE);
          return false;
        }
      } else {
        return false;
      }
      base0, len0 := 0, writeIdx;
      ivCount := 1;
      bytesToSend := writeIdx;
      return true;
    }

    /** Status line and headers */
    method WriteHead(status: nat, title: seq<char>, length: int)
      requires Valid()
      modifies this`writeIdx, writeBuf
      ensures Valid()
      ensures Text() == HttpReply.AddHeaders(HttpReply.AddResponse(old(Text()), StatusLine(status, title)), length,
        linger)
    {
      var _ := AddResponse(StatusLine(status, title));
      AddHeaders(length);
    }

    /** A page that fits into the buffer with its head */
    method WritePage(status: nat, title: seq<char>, form: seq<char>) returns (ok: bool)
      requires Valid()
      modifies this`writeIdx, writeBuf
      ensures Valid()
      ensures var head := HttpReply.AddHeaders(HttpReply.AddResponse(old(Text()), StatusLine(status, title)), |form|,
        linger);
        ok == HasRoom(head, form) && Text() == HttpReply.AddResponse(head, form)
    {
      WriteHead(status, title, |form|);
      ok := AddResponse(form);
    }

    /**
     write(): `counts` are the results of writev during this call; if they do not complete the reply, the
     next result is an error, EAGAIN or another one.
    */
    method Write(counts: seq<nat>, again: bool) returns (keep: bool, arming: Arming)
      requires Valid()
      modifies this, writeBuf
      ensures Valid()
      ensures old(bytesToSend) == 0 ==> keep && arming == ForRead && Text() == [] && bytesToSend == 0 && !linger
      ensures old(bytesToSend) != 0 ==>
        var (progress, s) := Deliver(old(View()), counts, AsCoded);
        match progress
        case Blocked => View() == s && linger == old(linger) && keep == again
          && arming == (if again then ForWrite else NotArmed)
        case Done =>
          && arming == ForRead && keep == old(linger)
          && wire == s.wire
          && if keep then Text() == [] && bytesToSend == 0 && bytesHaveSend == 0 && !linger else View() == s
    {
      if bytesToSend == 0 {
        Init();
        return true, ForRead;
      }
      var done := SendOn(counts);
      if !done {
        return again, if again then ForWrite else NotArmed;
      }
      if linger {
        Init();
        return true, ForRead;
      }
      return false, ForRead;
    }

    /**
     process_write, and then write() for each event until the reply is complete; every call that is not ends in
     EAGAIN.
    */
    method SendReply(code: HttpCode, file: seq<char>, calls: seq<seq<nat>>, ghost r: Request)
      returns (ok: bool, done: bool, ghost start: Sending)
      requires Valid() && Text() == [] && bytesHaveSend == 0
      requires FitsInt(code, linger, |file|) && !r.linger && r.body == []
      modifies this, writeBuf
      ensures Valid() && ok == Answered(code, |file|)
      ensures ok ==>
        && Begins(start, code, old(linger), |file|)
        && (if done then Done else Blocked, wire) ==
             (Deliver(start, Joined(calls), AsCoded).0, Deliver(start, Joined(calls), AsCoded).1.wire)
      ensures ok && InsideHeader(start, Joined(calls), AsCoded) <= 1 ==>
        var text, rest := HttpReply.ProcessWrite(code, old(linger), |file|).text, Mapped(code, file);
        && Bytes(wire, text, rest) <= text + rest
        && (done ==> Bytes(wire, text, rest) == text + rest && ReadsBack(text + rest, code, old(linger), file, r))
    {
      hide HttpReply.ProcessWrite, Deliver, InsideHeader, Bytes, Answered, ReplyHead, ReadsBack, FitsInt, Account;
      ok := ProcessWrite(code, |file|);
      start := View();
      done := false;
      Framing(code, linger, |file|);
      if !ok {
        return;
      }
      StartsOnTrack(start, code, linger, |file|);
      done := WriteAll(calls);
      if InsideHeader(start, Joined(calls), AsCoded) <= 1 {
        ReplyDelivered(start, Joined(calls), code, old(linger), file, r);
      }
    }

    /** write() for each event, until the reply is complete */
    method WriteAll(calls: seq<seq<nat>>) returns (done: bool)
      requires Valid() && bytesToSend > 0
      modifies this, writeBuf
      ensures Valid()
      ensures (if done then Done else Blocked, wire) ==
        (Deliver(old(View()), Joined(calls), AsCoded).0, Deliver(old(View()), Joined(calls), AsCoded).1.wire)
    {
      hide Deliver, Account;
      ghost var start := View();
      var i := 0;
      NothingDelivered(start);
      while i < |calls|
        invariant 0 <= i <= |calls| && Valid() && bytesToSend > 0
        invariant Deliver(start, Joined(calls[..i]), AsCoded) == (Blocked, View())
      {
        assert calls[..i + 1][..i] == calls[..i];
        CallsCompose(start, Joined(calls[..i]), calls[i], AsCoded);
        BlockedHasMore(View(), calls[i]);
        var _, arming := Write(calls[i], true);
        i := i + 1;
        if arming == ForRead {
          JoinedSplit(calls, i);
          ghost var rest :| Joined(calls) == Joined(calls[..i]) + rest;
          DoneStays(start, Joined(calls[..i]), rest, AsCoded);
          return true;
        }
      }
      assert calls[..i] == calls;
      return false;
    }

    /** The bookkeeping after writev has returned `temp` */
    method Book(temp: nat)
      modifies this`wire, this`bytesHaveSend, this`bytesToSend, this`base0, this`len0, this`base1, this`len1
      ensures View() == Account(old(View()), temp, AsCoded)
    {
      hide Gather;
      wire := wire + Gather(View(), temp);
      bytesHaveSend := bytesHaveSend + temp;
      bytesToSend := bytesToSend - temp;
      if bytesHaveSend >= len0 {
        len0 := 0;
        base1 := bytesHaveSend - writeIdx;
        len1 := bytesToSend;
      } else {
        base0 := bytesHaveSend;
        len0 := len0 - bytesHaveSend;
      }
    }

    /** The loop of write(): `done` unless the results ran out first. */
    method SendOn(counts: seq<nat>) returns (done: bool)
      requires Valid()
      modifies this`wire, this`bytesHaveSend, this`bytesToSend, this`base0, this`len0, this`base1, this`len1
      ensures (if done then Done else Blocked, View()) == Deliver(old(View()), counts, AsCoded)
    {
      hide Account, Gather;
      var i := 0;
      while i < |counts|
        invariant 0 <= i <= |counts|
        invariant Deliver(View(), counts[i..], AsCoded) == Deliver(old(View()), counts, AsCoded)
      {
        var offered := len0 + if ivCount == 2 && len1 > 0 then len1 else 0;
        var temp := if counts[i] <= offered then counts[i] else offered;
        ghost var rest := counts[i..];
        Book(temp);
        assert rest[1..] == counts[i + 1..] && rest[0] == counts[i];
        i := i + 1;
        if bytesToSend <= 0 {
          return true;
        }
      }
      return false;
    }
  }

  lemma NothingDelivered(s: Sending)
    ensures Deliver(s, Joined([]), AsCoded) == (Blocked, s)
  {
  }

  /** A delivery that is not complete has something left to send. */
  lemma {:induction false} BlockedHasMore(s: Sending, counts: seq<nat>)
    requires s.toSend > 0
    ensures Deliver(s, counts, AsCoded).0 == Blocked ==> Deliver(s, counts, AsCoded).1.toSend > 0
    decreases |counts|
  {
    hide Account;
    if counts != [] {
      var t := Account(s, Taken(s, counts[0]), AsCoded);
      if t.toSend > 0 {
        BlockedHasMore(t, counts[1..]);
      }
    }
  }
}
