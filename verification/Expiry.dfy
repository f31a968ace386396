/**
 When a connection expires, descriptor by descriptor: what one descriptor goes through does not depend on the
 other connections, except for the limit on their number.
*/
module Expiry {
  import opened Wrappers
  import opened EventLoop

  /**
   The last accept, read or write of the connection that a descriptor now stands for, and those of its earlier
   connections whose timers are still in the list
  */
  datatype Life = Life(current: Option<int>, left: seq<int>)

  function Times(l: Life): seq<int> {
    l.left + if l.current.Some? then [l.current.value] else []
  }

  /** Every one of `times` is less than 15 seconds ago. */
  predicate AllRecent(times: seq<int>, now: int) {
    forall i | 0 <= i < |times| :: now - times[i] < 15
  }

  function RecentOnes(times: seq<int>, now: int): seq<int> {
    if times == [] then []
    else (if now - times[0] < 15 then [times[0]] else []) + RecentOnes(times[1..], now)
  }

  /** What one input does to descriptor `fd`; `full` is the test of m_user_count, `alarmed` the flag `timeout`. */
  function LifeStep(l: Life, input: Input, fd: nat, full: bool, alarmed: bool): Life {
    match input
    case Handle(Accepted(g), now) => if g == fd && !full then l.(current := Some(now)) else l
    case Handle(HungUp(g), _) => if g == fd then l.(current := None) else l
    case Handle(Readable(g, ok), now) => if g == fd then l.(current := if ok then Some(now) else None) else l
    case Handle(Writable(g, ok), now) => if g == fd then l.(current := if ok then Some(now) else None) else l
    case WorkerCloses(g, _) => if g == fd then Life(None, Times(l)) else l
    case EndOfBatch(now) =>
      // the first timer of the descriptor that has expired closes the connection, whichever it was set for
      if !alarmed || AllRecent(Times(l), now) then l else Life(None, RecentOnes(Times(l), now))
    case _ => l
  }

  function LifeAfter(inputs: seq<Input>, fd: nat): Life {
    if inputs == [] then Life(None, [])
    else
      var before := inputs[..|inputs| - 1];
      var s := Run(START, before);
      LifeStep(LifeAfter(before, fd), inputs[|inputs| - 1], fd, s.userCount >= MAX_FD, s.timeout)
  }

  // ----- the entries of one descriptor in the queue -----

  function TimesOf(queue: seq<Active>, fd: nat): seq<int> {
    if queue == [] then [] else TimeOf(queue[0], fd) + TimesOf(queue[1..], fd)
  }

  function TimeOf(a: Active, fd: nat): seq<int> {
    if a.fd == fd then [a.last] else []
  }

  lemma {:induction false} TimesOfAppend(queue: seq<Active>, a: Active, fd: nat)
    ensures TimesOf(queue + [a], fd) == TimesOf(queue, fd) + TimeOf(a, fd)
  {
    hide TimeOf;
    var all := queue + [a];
    if queue == [] {
      assert all == [a] && all[1..] == [];
      assert TimeOf(a, fd) + [] == [] + TimeOf(a, fd);
    } else {
      assert all[1..] == queue[1..] + [a] && all[0] == queue[0];
      TimesOfAppend(queue[1..], a, fd);
      var first, rest, last := TimeOf(queue[0], fd), TimesOf(queue[1..], fd), TimeOf(a, fd);
      assert first + (rest + last) == (first + rest) + last;
    }
  }

  /** Without its newest entry a descriptor has the others; the other descriptors keep theirs. */
  lemma {:induction false} TimesOfWithout(queue: seq<Active>, gone: nat, fd: nat)
    ensures var times := TimesOf(queue, fd);
      TimesOf(Without(queue, gone), fd) == if gone == fd && times != [] then times[..|times| - 1] else times
    decreases |queue|
  {
    if queue != [] {
      var n := |queue| - 1;
      assert queue == queue[..n] + [queue[n]];
      TimesOfAppend(queue[..n], queue[n], fd);
      if queue[n].fd != gone {
        TimesOfWithout(queue[..n], gone, fd);
        TimesOfAppend(Without(queue[..n], gone), queue[n], fd);
      }
    }
  }

  lemma {:induction false} TimesOfActive(queue: seq<Active>, now: int, fd: nat)
    ensures TimesOf(StillActive(queue, now), fd) == RecentOnes(TimesOf(queue, fd), now)
  {
    if queue != [] {
      TimesOfActive(queue[1..], now, fd);
      var rest := TimesOf(queue[1..], fd);
      RecentFirst(TimeOf(queue[0], fd), rest, now);
      if now - queue[0].last < 15 {
        var active := StillActive(queue[1..], now);
        assert ([queue[0]] + active)[1..] == active;
      }
    }
  }

  lemma RecentFirst(first: seq<int>, rest: seq<int>, now: int)
    requires |first| <= 1
    ensures RecentOnes(first + rest, now) ==
      (if |first| == 1 && now - first[0] < 15 then first else []) + RecentOnes(rest, now)
  {
    if first == [] {
      assert first + rest == rest && [] + RecentOnes(rest, now) == RecentOnes(rest, now);
    } else {
      assert (first + rest)[1..] == rest && first == [first[0]];
    }
  }

  lemma {:induction false} FreshIsRecent(queue: seq<Active>, fd: nat, now: int)
    ensures Fresh(queue, fd, now) <==> AllRecent(TimesOf(queue, fd), now)
  {
    if queue != [] {
      FreshIsRecent(queue[1..], fd, now);
      FreshFirst(queue, fd, now);
      AllRecentFirst(TimeOf(queue[0], fd), TimesOf(queue[1..], fd), now);
      assert queue[0].fd == fd ==> TimeOf(queue[0], fd)[0] == queue[0].last;
    }
  }

  lemma AllRecentFirst(first: seq<int>, rest: seq<int>, now: int)
    ensures AllRecent(first + rest, now) <==> AllRecent(first, now) && AllRecent(rest, now)
  {
    var all := first + rest;
    assert forall i | 0 <= i < |first| :: first[i] == all[i];
    assert forall i | 0 <= i < |rest| :: rest[i] == all[|first| + i];
  }

  lemma FreshFirst(queue: seq<Active>, fd: nat, now: int)
    requires queue != []
    ensures Fresh(queue, fd, now) <==>
      (queue[0].fd == fd ==> now - queue[0].last < 15) && Fresh(queue[1..], fd, now)
  {
    assert forall i | 0 <= i < |queue[1..]| :: queue[1..][i] == queue[i + 1];
  }

  lemma {:induction false} AllAreRecent(times: seq<int>, now: int)
    requires AllRecent(times, now)
    ensures RecentOnes(times, now) == times
  {
    if times != [] {
      AllAreRecent(times[1..], now);
    }
  }

  // ----- the life of a descriptor is what the loop knows of it -----

  /** The descriptor is open exactly if it has a current connection, and its entries in the queue are its times. */
  ghost predicate Knows(q: Lru, l: Life, fd: nat) {
    (fd in q.open <==> l.current.Some?) && TimesOf(q.queue, fd) == Times(l)
  }

  lemma HeardKnows(q: Lru, l: Life, g: nat, ok: bool, now: int, fd: nat)
    requires Knows(q, l, fd) && g in q.open
    ensures Knows(Heard(q, g, ok, now), if g == fd then l.(current := if ok then Some(now) else None) else l, fd)
  {
    hide Without, TimesOf;
    TimesOfWithout(q.queue, g, fd);
    TimesOfAppend(Without(q.queue, g), Active(g, now), fd);
    if g == fd {
      var times := Times(l);
      assert times[..|times| - 1] == l.left;
    }
    assert Times(l) + [] == Times(l);
  }

  lemma TickKnows(q: Lru, l: Life, now: int, fd: nat)
    requires Knows(q, l, fd) && q.timeout
    ensures Knows(LruStep(q, EndOfBatch(now)), LifeStep(l, EndOfBatch(now), fd, false, true), fd)
  {
    hide StillActive, TimesOf, Fresh, AllRecent;
    TimesOfActive(q.queue, now, fd);
    FreshIsRecent(q.queue, fd, now);
    if AllRecent(Times(l), now) {
      AllAreRecent(Times(l), now);
    }
    assert RecentOnes(Times(l), now) + [] == RecentOnes(Times(l), now);
  }

  lemma StepKnows(s: Loop, q: Lru, clock: int, l: Life, input: Input, fd: nat)
    requires Refines(s, q, clock) && Possible(s, input) && Knows(q, l, fd)
    ensures Knows(LruStep(q, input), LifeStep(l, input, fd, s.userCount >= MAX_FD, s.timeout), fd)
  {
    hide Without, StillActive, TimesOf, Matches, Ordered, Tracked;
    match input
    case Handle(Accepted(g), now) =>
      TimesOfAppend(q.queue, Active(g, now), fd);
      assert Times(l) + [] == Times(l);
    case Handle(HungUp(g), now) =>
      HeardKnows(q, l, g, false, now, fd);
      HungUpIsFailure(q, g, now);
    case Handle(Readable(g, ok), now) => HeardKnows(q, l, g, ok, now, fd);
    case Handle(Writable(g, ok), now) => HeardKnows(q, l, g, ok, now, fd);
    case EndOfBatch(now) =>
      if s.timeout {
        TickKnows(q, l, now, fd);
      }
    case WorkerCloses(g, _) => assert Times(l) + [] == Times(l);
    case _ =>
  }

  lemma {:induction false} LifeIsKnown(clock: int, inputs: seq<Input>, fd: nat)
    requires Legal(START, clock, inputs)
    ensures Knows(LruRun(NOBODY, inputs), LifeAfter(inputs, fd), fd)
    decreases |inputs|
  {
    hide Step, LruStep, LifeStep, Possible, Refines, Legal;
    if inputs == [] {
      NothingKnown(fd);
    } else {
      var before, last := inputs[..|inputs| - 1], inputs[|inputs| - 1];
      LegalBefore(START, clock, inputs);
      LifeIsKnown(clock, before, fd);
      hide Run, LruRun, Knows;
      LastStep(START, NOBODY, inputs);
      StartRefines(clock);
      TimersAreLru(START, NOBODY, clock, before);
      StepKnows(Run(START, before), LruRun(NOBODY, before), ClockAfter(clock, before), LifeAfter(before, fd), last, fd);
    }
  }

  lemma NothingKnown(fd: nat)
    ensures Knows(LruRun(NOBODY, []), LifeAfter([], fd), fd)
  {
  }

  /**
   In every run a tick spares an open connection if and only if every accept, read or write that still has a
   timer under its descriptor, its own last one included, is less than 15 seconds ago.
  */
  lemma ExpiryExactly(clock: int, inputs: seq<Input>, now: int, fd: nat)
    requires Legal(START, clock, inputs) && ClockAfter(clock, inputs) <= now
    requires Run(START, inputs).timeout && fd in Run(START, inputs).open
    ensures LifeAfter(inputs, fd).current.Some?
    ensures fd in Step(Run(START, inputs), EndOfBatch(now)).open <==> AllRecent(Times(LifeAfter(inputs, fd)), now)
  {
    hide Step, LruStep, Run, LruRun, Legal, LifeAfter, TimesOf, Matches, Ordered, Tracked, Fresh;
    var s, q := Run(START, inputs), LruRun(NOBODY, inputs);
    StartRefines(clock);
    TimersAreLru(START, NOBODY, clock, inputs);
    LifeIsKnown(clock, inputs, fd);
    FreshIsRecent(q.queue, fd, now);
    ExpiryIsExact(s, q, ClockAfter(clock, inputs), now, fd);
  }
}
