/**
 The sending side of http_conn: what write() hands to the socket over any number of writev results.
 Bytes are named by where they come from, so a run is right exactly if it is right for all contents.
*/
module HttpSend {

  /** A byte of m_write_buf, or a byte at an offset from m_file_address */
  datatype Cell = HeaderByte(index: nat) | FileByte(offset: int)

  /** m_write_idx, the two iovec entries, m_iv_count, the two byte counts, and what the socket has taken */
  datatype Sending = Sending(
    headerLen: nat,
    base0: nat,
    len0: nat,
    base1: int,
    len1: int,
    ivCount: nat,
    toSend: int,
    have: nat,
    wire: seq<Cell>)

  /** What writev may take at most */
  function Offered(s: Sending): nat {
    s.len0 + if s.ivCount == 2 && s.len1 > 0 then s.len1 else 0
  }

  /** The first `n` bytes of the two segments */
  function Gather(s: Sending, n: nat): (cells: seq<Cell>)
    ensures |cells| == n
  {
    seq(n, k requires 0 <= k => if k < s.len0 then HeaderByte(s.base0 + k) else FileByte(s.base1 + k - s.len0))
  }

  /** The arithmetic as coded, or the same with m_write_idx for the length of the header */
  datatype Arithmetic = AsCoded | ByWriteIdx

  /** One pass of the loop in write(): writev has returned `n`. */
  function Account(s: Sending, n: nat, arith: Arithmetic): Sending {
    var have := s.have + n;
    var header := if arith == AsCoded then s.len0 else s.headerLen;
    var t := s.(have := have, toSend := s.toSend - n, wire := s.wire + Gather(s, n));
    if have >= header then t.(len0 := 0, base1 := have - s.headerLen, len1 := s.toSend - n)
    else t.(base0 := have, len0 := header - have)
  }

  /** The kernel takes no more than it is offered. */
  function Taken(s: Sending, count: nat): nat {
    if count <= Offered(s) then count else Offered(s)
  }

  datatype Progress = Blocked | Done

  /** write() on the results `counts`, up to completion or to the error that follows them; several calls are one run. */
  function Deliver(s: Sending, counts: seq<nat>, arith: Arithmetic): (Progress, Sending)
    decreases |counts|
  {
    if counts == [] then (Blocked, s)
    else
      var t := Account(s, Taken(s, counts[0]), arith);
      if t.toSend <= 0 then (Done, t) else Deliver(t, counts[1..], arith)
  }

  lemma {:induction false} CallsCompose(s: Sending, first: seq<nat>, second: seq<nat>, arith: Arithmetic)
    requires Deliver(s, first, arith).0 == Blocked
    ensures Deliver(s, first + second, arith) == Deliver(Deliver(s, first, arith).1, second, arith)
    decreases |first|
  {
    if first == [] {
      assert first + second == second;
    } else {
      assert (first + second)[1..] == first[1..] + second;
      CallsCompose(Account(s, Taken(s, first[0]), arith), first[1..], second, arith);
    }
  }

  /** Once the reply is complete further results play no part. */
  lemma {:induction false} DoneStays(s: Sending, first: seq<nat>, second: seq<nat>, arith: Arithmetic)
    requires Deliver(s, first, arith).0 == Done
    ensures Deliver(s, first + second, arith) == Deliver(s, first, arith)
    decreases |first|
  {
    assert (first + second)[1..] == first[1..] + second;
    var t := Account(s, Taken(s, first[0]), arith);
    if t.toSend > 0 {
      DoneStays(t, first[1..], second, arith);
    }
  }

  /** The results of several calls of write() in one sequence */
  function Joined(calls: seq<seq<nat>>): seq<nat> {
    if calls == [] then [] else Joined(calls[..|calls| - 1]) + calls[|calls| - 1]
  }

  lemma {:induction false} JoinedSplit(calls: seq<seq<nat>>, k: nat)
    requires k <= |calls|
    ensures exists rest :: Joined(calls) == Joined(calls[..k]) + rest
    decreases |calls|
  {
    if k == |calls| {
      assert calls[..k] == calls && Joined(calls) == Joined(calls[..k]) + [];
    } else {
      var front := calls[..|calls| - 1];
      JoinedSplit(front, k);
      var rest :| Joined(front) == Joined(front[..k]) + rest;
      assert front[..k] == calls[..k];
      assert Joined(calls) == Joined(calls[..k]) + (rest + calls[|calls| - 1]);
    }
  }

  /** The header, then the file */
  function Expected(h: nat, f: nat): (cells: seq<Cell>)
    ensures |cells| == h + f
  {
    seq(h + f, k requires 0 <= k => if k < h then HeaderByte(k) else FileByte(k - h))
  }

  /** How many results leave bytes_have_send strictly inside the header */
  function InsideHeader(s: Sending, counts: seq<nat>, arith: Arithmetic): nat
    decreases |counts|
  {
    if counts == [] then 0
    else
      var t := Account(s, Taken(s, counts[0]), arith);
      (if 0 < t.have < t.headerLen then 1 else 0) +
      if t.toSend <= 0 then 0 else InsideHeader(t, counts[1..], arith)
  }

  // ----- runs that are right -----

  /** Everything handed over so far is right, and the segments hold the rest. */
  ghost predicate OnTrack(s: Sending, h: nat, f: nat) {
    && s.headerLen == h && s.have + s.toSend == h + f && s.toSend >= 0
    && s.ivCount == (if f == 0 then 1 else 2)
    && s.wire == Expected(h, f)[..s.have]
    && if s.have < h then s.base0 == s.have && s.len0 == h - s.have && (f > 0 ==> s.base1 == 0 && s.len1 == f)
       else s.len0 == 0 && s.base1 == s.have - h && s.len1 == s.toSend
  }

  lemma TakenOnTrack(s: Sending, n: nat, h: nat, f: nat)
    requires OnTrack(s, h, f) && n <= Offered(s)
    ensures s.have + n <= h + f && s.wire + Gather(s, n) == Expected(h, f)[..s.have + n]
  {
  }

  lemma StaysOnTrack(s: Sending, n: nat, h: nat, f: nat, arith: Arithmetic)
    requires OnTrack(s, h, f) && n <= Offered(s)
    requires arith == AsCoded && 0 < s.have < h ==> s.have + n >= h
    ensures OnTrack(Account(s, n, arith), h, f)
  {
    TakenOnTrack(s, n, h, f);
  }

  /** With the repaired arithmetic every schedule hands over a prefix, and on completion all of it. */
  lemma {:induction false} RepairedDelivery(s: Sending, counts: seq<nat>, h: nat, f: nat)
    requires OnTrack(s, h, f)
    ensures var (progress, t) := Deliver(s, counts, ByWriteIdx);
      OnTrack(t, h, f) && (progress == Done ==> t.wire == Expected(h, f))
    decreases |counts|
  {
    if counts != [] {
      var n := Taken(s, counts[0]);
      StaysOnTrack(s, n, h, f, ByWriteIdx);
      var t := Account(s, n, ByWriteIdx);
      if t.toSend > 0 {
        RepairedDelivery(t, counts[1..], h, f);
      }
    }
  }

  // ----- runs that are wrong -----

  /** Some byte that went out is not the one expected there. */
  ghost predicate Wrong(s: Sending, h: nat, f: nat) {
    exists k | 0 <= k < |s.wire| :: k >= h + f || s.wire[k] != Expected(h, f)[k]
  }

  /** Nothing wrong has gone out yet, but the first segment is too short for the rest of the header. */
  ghost predicate Short(s: Sending, h: nat, f: nat) {
    && s.headerLen == h && s.have == |s.wire| < h && s.have + s.toSend == h + f
    && s.have + s.len0 < h
    && if s.len0 == 0 then s.base1 == s.have - h else s.base0 == s.have && (s.ivCount == 2 ==> s.base1 == 0)
  }

  lemma ShortStaysWrong(s: Sending, n: nat, h: nat, f: nat)
    requires Short(s, h, f) && n <= Offered(s)
    ensures var t := Account(s, n, AsCoded); Short(t, h, f) || Wrong(t, h, f)
  {
    var t := Account(s, n, AsCoded);
    if n > s.len0 {
      var k := s.have + s.len0;
      assert t.wire[k] == Gather(s, n)[s.len0] == FileByte(s.base1);
      assert Expected(h, f)[k] == HeaderByte(k);
    }
  }

  lemma WrongStaysWrong(s: Sending, n: nat, h: nat, f: nat)
    requires Wrong(s, h, f)
    ensures Wrong(Account(s, n, AsCoded), h, f)
  {
    var k :| 0 <= k < |s.wire| && (k >= h + f || s.wire[k] != Expected(h, f)[k]);
    assert Account(s, n, AsCoded).wire[k] == s.wire[k];
  }

  /** Once the segment is too short, no schedule delivers the reply. */
  lemma {:induction false} NeverRight(s: Sending, counts: seq<nat>, h: nat, f: nat)
    requires Short(s, h, f) || Wrong(s, h, f)
    ensures var (progress, t) := Deliver(s, counts, AsCoded);
      (Short(t, h, f) || Wrong(t, h, f)) && (progress == Done ==> t.wire != Expected(h, f))
    decreases |counts|
  {
    if counts != [] {
      var n := Taken(s, counts[0]);
      if Short(s, h, f) {
        ShortStaysWrong(s, n, h, f);
      } else {
        WrongStaysWrong(s, n, h, f);
      }
      var t := Account(s, n, AsCoded);
      if t.toSend > 0 {
        NeverRight(t, counts[1..], h, f);
      }
    }
  }

  // ----- exactly when the code delivers -----

  /** A second result inside the header makes the first segment too short. */
  lemma SecondInsideIsShort(s: Sending, n: nat, h: nat, f: nat)
    requires OnTrack(s, h, f) && n <= Offered(s) && 0 < s.have && s.have + n < h
    ensures Short(Account(s, n, AsCoded), h, f)
  {
    TakenOnTrack(s, n, h, f);
  }

  lemma {:induction false} HeaderIsPast(s: Sending, counts: seq<nat>)
    requires s.have >= s.headerLen
    ensures InsideHeader(s, counts, AsCoded) == 0
    decreases |counts|
  {
    if counts != [] {
      HeaderIsPast(Account(s, Taken(s, counts[0]), AsCoded), counts[1..]);
    }
  }

  lemma {:induction false} DeliveryFrom(s: Sending, counts: seq<nat>, h: nat, f: nat)
    requires OnTrack(s, h, f) && s.toSend > 0
    ensures var (progress, t) := Deliver(s, counts, AsCoded);
      var inside := InsideHeader(s, counts, AsCoded) + if 0 < s.have < h then 1 else 0;
      && (inside <= 1 ==> OnTrack(t, h, f))
      && (inside <= 1 && progress == Done ==> t.wire == Expected(h, f))
      && (inside > 1 && progress == Done ==> t.wire != Expected(h, f))
    decreases |counts|
  {
    if counts != [] {
      var n := Taken(s, counts[0]);
      var t := Account(s, n, AsCoded);
      if 0 < s.have && s.have + n < h {
        SecondInsideIsShort(s, n, h, f);
        NeverRight(t, counts[1..], h, f);
      } else {
        StaysOnTrack(s, n, h, f, AsCoded);
        if t.have >= h {
          HeaderIsPast(t, counts[1..]);
        }
        if t.toSend > 0 {
          DeliveryFrom(t, counts[1..], h, f);
        }
      }
    }
  }

  /**
   A completed reply is exactly the header and the file if and only if at most one result stopped inside the
   header.
  */
  lemma ExactDelivery(s: Sending, counts: seq<nat>, h: nat, f: nat)
    requires OnTrack(s, h, f) && s.have == 0 && h > 0 && Deliver(s, counts, AsCoded).0 == Done
    ensures Deliver(s, counts, AsCoded).1.wire == Expected(h, f) <==> InsideHeader(s, counts, AsCoded) <= 1
  {
    DeliveryFrom(s, counts, h, f);
  }

  /** Under the same condition what has been sent is a prefix at every moment. */
  lemma PrefixDelivery(s: Sending, counts: seq<nat>, h: nat, f: nat)
    requires OnTrack(s, h, f) && s.have == 0 && h > 0 && InsideHeader(s, counts, AsCoded) <= 1
    ensures Deliver(s, counts, AsCoded).1.wire <= Expected(h, f)
  {
    DeliveryFrom(s, counts, h, f);
  }

  /** The header without its last byte, then the file with its last byte twice */
  function Misdelivered(h: nat, f: nat): (cells: seq<Cell>)
    requires h > 0 && f > 0
    ensures |cells| == h + f
  {
    seq(h + f, k requires 0 <= k < h + f =>
      if k < h - 1 then HeaderByte(k) else if k < h + f - 1 then FileByte(k - h + 1) else FileByte(f - 1))
  }

  /** The arithmetic of two single bytes, the rest of what is offered, and the one byte still counted as due */
  lemma FourResults(s: Sending, h: nat, f: nat)
    requires OnTrack(s, h, f) && s.have == 0 && h >= 4 && f > 0
    ensures var s1 := Account(s, 1, AsCoded);
      var s2 := Account(s1, 1, AsCoded);
      var s3 := Account(s2, h + f - 3, AsCoded);
      && s1 == s.(base0 := 1, len0 := h - 1, have := 1, toSend := h + f - 1, wire := s1.wire)
      && s2 == s.(base0 := 2, len0 := h - 3, have := 2, toSend := h + f - 2, wire := s2.wire)
      && s3 == s.(base0 := 2, len0 := 0, base1 := f - 1, len1 := 1, have := h + f - 1, toSend := 1, wire := s3.wire)
  {
  }

  lemma MisdeliveredWire(s: Sending, h: nat, f: nat)
    requires OnTrack(s, h, f) && s.have == 0 && h >= 4 && f > 0
    ensures var s2 := Account(Account(s, 1, AsCoded), 1, AsCoded);
      Account(Account(s2, h + f - 3, AsCoded), 1, AsCoded).wire == Misdelivered(h, f)
  {
    FourResults(s, h, f);
  }

  /**
   Two results of one byte each, inside any header of four bytes or more, spoil every reply with a file: write()
   completes, the last byte of the header has not been sent, and the last byte of the file has been sent twice.
  */
  lemma MisdeliveredReply(s: Sending, h: nat, f: nat)
    requires OnTrack(s, h, f) && s.have == 0 && h >= 4 && f > 0
    ensures Deliver(s, [1, 1, h + f, 1], AsCoded).0 == Done
    ensures Deliver(s, [1, 1, h + f, 1], AsCoded).1.wire == Misdelivered(h, f) != Expected(h, f)
    ensures InsideHeader(s, [1, 1, h + f, 1], AsCoded) == 2
  {
    hide Deliver, Account, InsideHeader, Expected;
    FourResults(s, h, f);
    MisdeliveredWire(s, h, f);
    var s1 := Account(s, 1, AsCoded);
    var s2 := Account(s1, 1, AsCoded);
    var s3 := Account(s2, h + f - 3, AsCoded);
    assert [1, 1, h + f, 1] == [1] + ([1] + ([h + f] + ([1] + [])));
    DeliverOne(s, 1, [1] + ([h + f] + ([1] + [])), AsCoded);
    DeliverOne(s1, 1, [h + f] + ([1] + []), AsCoded);
    DeliverOne(s2, h + f, [1] + [], AsCoded);
    DeliverOne(s3, 1, [], AsCoded);
    LastIsDone(s3);
    WrongHeaderByte(h, f);
  }

  lemma LastIsDone(s: Sending)
    requires s.toSend == 1
    ensures Account(s, 1, AsCoded).toSend == 0 && Account(s, 1, AsCoded).have == s.have + 1
    ensures Account(s, 1, AsCoded).headerLen == s.headerLen
  {
  }

  lemma WrongHeaderByte(h: nat, f: nat)
    requires h > 0 && f > 0
    ensures Misdelivered(h, f) != Expected(h, f)
  {
    assert Misdelivered(h, f)[h - 1] == FileByte(0) && Expected(h, f)[h - 1] == HeaderByte(h - 1);
  }

  lemma DeliverOne(s: Sending, n: nat, rest: seq<nat>, arith: Arithmetic)
    ensures var t := Account(s, Taken(s, n), arith);
      && Deliver(s, [n] + rest, arith) == (if t.toSend <= 0 then (Done, t) else Deliver(t, rest, arith))
      && InsideHeader(s, [n] + rest, arith) ==
           (if 0 < t.have < t.headerLen then 1 else 0) + if t.toSend <= 0 then 0 else InsideHeader(t, rest, arith)
  {
    assert ([n] + rest)[1..] == rest;
  }

  lemma {:induction false} ErrorPageFrom(s: Sending, counts: seq<nat>, h: nat)
    requires Short(s, h, 0) && s.ivCount == 1
    ensures Deliver(s, counts, AsCoded).0 == Blocked
    decreases |counts|
  {
    if counts != [] {
      ErrorPageFrom(Account(s, Taken(s, counts[0]), AsCoded), counts[1..], h);
    }
  }

  lemma {:induction false} ErrorPageStallsFrom(s: Sending, counts: seq<nat>, h: nat)
    requires OnTrack(s, h, 0) && s.toSend > 0
    requires InsideHeader(s, counts, AsCoded) + (if 0 < s.have then 1 else 0) > 1
    ensures Deliver(s, counts, AsCoded).0 == Blocked
    decreases |counts|
  {
    var n := Taken(s, counts[0]);
    var t := Account(s, n, AsCoded);
    if 0 < s.have && s.have + n < h {
      SecondInsideIsShort(s, n, h, 0);
      ErrorPageFrom(t, counts[1..], h);
    } else {
      StaysOnTrack(s, n, h, 0, AsCoded);
      ErrorPageStallsFrom(t, counts[1..], h);
    }
  }

  /** A reply without a file is never completed after a second result inside it: write() keeps getting 0 from writev. */
  lemma ErrorPageStalls(s: Sending, counts: seq<nat>, h: nat)
    requires OnTrack(s, h, 0) && s.have == 0 && h > 0 && InsideHeader(s, counts, AsCoded) > 1
    ensures Deliver(s, counts, AsCoded).0 == Blocked
  {
    ErrorPageStallsFrom(s, counts, h);
  }

  /** The bytes that cells stand for; a cell outside both memories stands for nothing known. */
  function Bytes(cells: seq<Cell>, header: seq<char>, file: seq<char>): (bytes: seq<char>) {
    seq(|cells|, k requires 0 <= k < |cells| =>
      match cells[k]
      case HeaderByte(i) => if i < |header| then header[i] else '?'
      case FileByte(i) => if 0 <= i < |file| then file[i] else '?')
  }

  lemma BytesOfPrefix(cells: seq<Cell>, header: seq<char>, file: seq<char>)
    requires cells <= Expected(|header|, |file|)
    ensures Bytes(cells, header, file) == (header + file)[..|cells|]
  {
    forall k | 0 <= k < |cells| ensures Bytes(cells, header, file)[k] == (header + file)[..|cells|][k] {
      assert cells[k] == Expected(|header|, |file|)[k];
    }
  }

  /** In bytes: what has been sent is a prefix of the header followed by the file, and all of it on completion. */
  lemma BytesDelivered(s: Sending, counts: seq<nat>, header: seq<char>, file: seq<char>)
    requires OnTrack(s, |header|, |file|) && s.have == 0 && header != [] && InsideHeader(s, counts, AsCoded) <= 1
    ensures var (progress, t) := Deliver(s, counts, AsCoded);
      && Bytes(t.wire, header, file) <= header + file
      && (progress == Done ==> Bytes(t.wire, header, file) == header + file)
  {
    hide Deliver, InsideHeader, OnTrack, Bytes;
    PrefixDelivery(s, counts, |header|, |file|);
    BytesOfPrefix(Deliver(s, counts, AsCoded).1.wire, header, file);
    if Deliver(s, counts, AsCoded).0 == Done {
      ExactDelivery(s, counts, |header|, |file|);
      assert (header + file)[..|header + file|] == header + file;
    }
  }
}
