/**
 The main loop of main.cpp over its timer list: accepts, hang-ups, reads, writes and alarms, each with the
 time at which it is handled, and the connections that workers close behind its back. Under a clock that
 does not run backwards the list is an LRU queue.
*/
module EventLoop {
  import opened TimerList
  import opened Wrappers

  const MAX_FD: nat := 65536
  const TIMESLOT: int := 5

  /** What the loop handles. `ok` is the result of read_once() or write(); the last two come through the pipe. */
  datatype Event =
    | Accepted(fd: nat)
    | HungUp(fd: nat)
    | Readable(fd: nat, ok: bool)
    | Writable(fd: nat, ok: bool)
    | Alarm
    | Terminate

  /** One event, the end of the events that one epoll_wait returned, or close_conn in a worker */
  datatype Input = Handle(event: Event, now: int) | EndOfBatch(now: int) | WorkerCloses(fd: nat, now: int)

  /** The timer list, the open connections, m_user_count and the two flags */
  datatype Loop = Loop(timers: seq<Entry>, open: set<nat>, userCount: int, timeout: bool, stop: bool)

  /** Where the newest entry of `fd` is; the length of the list if there is none */
  function LastIndex(fds: seq<nat>, fd: nat): (i: nat)
    ensures i <= |fds|
    ensures i < |fds| ==> fds[i] == fd
    ensures forall k | i < k < |fds| :: fds[k] != fd
    ensures i == |fds| ==> fd !in fds
  {
    var n := |fds| - 1;
    if fds == [] then 0
    else if fds[n] == fd then n
    else
      var i := LastIndex(fds[..n], fd);
      assert fds == fds[..n] + [fds[n]];
      if i == n then |fds| else i
  }

  lemma LastIndexUnique(fds: seq<nat>, fd: nat, i: nat)
    requires i < |fds| && fds[i] == fd && forall k | i < k < |fds| :: fds[k] != fd
    ensures LastIndex(fds, fd) == i
  {
  }

  function Fds(timers: seq<Entry>): (fds: seq<nat>)
    ensures |fds| == |timers| && forall i | 0 <= i < |fds| :: fds[i] == timers[i].sockfd
  {
    seq(|timers|, i requires 0 <= i < |timers| => timers[i].sockfd)
  }

  /** The place of the timer that users_timer[fd] points to: that of the last accept of `fd` */
  function IndexOf(timers: seq<Entry>, fd: nat): (i: nat)
    ensures i <= |timers| && (i < |timers| ==> timers[i].sockfd == fd)
  {
    LastIndex(Fds(timers), fd)
  }

  /** epoll reports only descriptors that are registered, and accept returns one that is not in use. */
  predicate Possible(s: Loop, input: Input) {
    match input
    case Handle(Accepted(fd), _) => fd !in s.open
    case Handle(HungUp(fd), _) => fd in s.open
    case Handle(Readable(fd, _), _) => fd in s.open
    case Handle(Writable(fd, _), _) => fd in s.open
    case WorkerCloses(fd, _) => fd in s.open
    case _ => true
  }

  /** cb_func and del_timer */
  function Close(s: Loop, fd: nat): Loop {
    var i := IndexOf(s.timers, fd);
    if i < |s.timers| then s.(timers := Remove(s.timers, i), open := s.open - {fd}, userCount := s.userCount - 1) else s
  }

  /** A successful read or write: adjust_timer with the postponed expiry */
  function Postpone(s: Loop, fd: nat, now: int): Loop {
    var i := IndexOf(s.timers, fd);
    if i < |s.timers| then s.(timers := Insert(Remove(s.timers, i), Entry(fd, now + 3 * TIMESLOT))) else s
  }

  /** How many timers tick() calls back */
  function Expired(timers: seq<Entry>, now: int): (n: nat)
    ensures n <= |timers|
    ensures forall i | 0 <= i < n :: timers[i].expire <= now
    ensures n < |timers| ==> timers[n].expire > now
  {
    if timers == [] || timers[0].expire > now then 0 else 1 + Expired(timers[1..], now)
  }

  function Unlisted(open: set<nat>, fds: seq<nat>): set<nat> {
    set fd | fd in open && fd !in fds
  }

  /** The descriptors that the callbacks of a tick close, and the timers that stay */
  function Fired(timers: seq<Entry>, now: int): (fds: seq<nat>)
    ensures |fds| == Expired(timers, now)
  {
    Fds(timers)[..Expired(timers, now)]
  }

  function Unfired(timers: seq<Entry>, now: int): seq<Entry> {
    timers[Expired(timers, now)..]
  }

  /** tick(): every callback closes whatever connection its descriptor now stands for. */
  function Tick(s: Loop, now: int): Loop {
    s.(timers := Unfired(s.timers, now), open := Unlisted(s.open, Fired(s.timers, now)),
       userCount := s.userCount - |Fired(s.timers, now)|, timeout := false)
  }

  function Admit(s: Loop, fd: nat, now: int): Loop {
    if s.userCount >= MAX_FD then s
    else
      s.(timers := Insert(s.timers, Entry(fd, now + 3 * TIMESLOT)), open := s.open + {fd},
         userCount := s.userCount + 1)
  }

  function Step(s: Loop, input: Input): Loop {
    match input
    case Handle(Accepted(fd), now) => Admit(s, fd, now)
    case Handle(HungUp(fd), _) => Close(s, fd)
    case Handle(Readable(fd, ok), now) => if ok then Postpone(s, fd, now) else Close(s, fd)
    case Handle(Writable(fd, ok), now) => if ok then Postpone(s, fd, now) else Close(s, fd)
    case Handle(Alarm, _) => s.(timeout := true)
    case Handle(Terminate, _) => s.(stop := true)
    case EndOfBatch(now) => if s.timeout then Tick(s, now) else s
    case WorkerCloses(fd, _) => s.(open := s.open - {fd}, userCount := s.userCount - 1)
  }

  // ----- the specification: a queue of connections by last activity -----

  /** A connection and the time of its accept or of its last successful read or write */
  datatype Active = Active(fd: nat, last: int)

  /**
   The connections by last activity, with those that a worker has closed until they expire; the open ones;
   how many workers have closed, and which descriptors
  */
  datatype Lru = Lru(queue: seq<Active>, open: set<nat>, closes: nat, left: set<nat>, timeout: bool, stop: bool)

  /** The queue without the newest entry of `fd` */
  function Without(queue: seq<Active>, fd: nat): (r: seq<Active>)
    decreases |queue|
  {
    if queue == [] then []
    else
      var n := |queue| - 1;
      if queue[n].fd == fd then queue[..n] else Without(queue[..n], fd) + [queue[n]]
  }

  /** The connections that have been active less than 15 seconds ago */
  function StillActive(queue: seq<Active>, now: int): (r: seq<Active>) {
    if queue == [] then []
    else if now - queue[0].last < 15 then [queue[0]] + StillActive(queue[1..], now)
    else StillActive(queue[1..], now)
  }

  /** Every entry of `fd` has been active less than 15 seconds ago. */
  predicate Fresh(queue: seq<Active>, fd: nat, now: int) {
    forall i | 0 <= i < |queue| && queue[i].fd == fd :: now - queue[i].last < 15
  }

  function Recent(open: set<nat>, queue: seq<Active>, now: int): set<nat> {
    set fd | fd in open && Fresh(queue, fd, now)
  }

  function LruStep(s: Lru, input: Input): Lru {
    match input
    case Handle(Accepted(fd), now) =>
      if |s.queue| - s.closes >= 65536 then s else s.(queue := s.queue + [Active(fd, now)], open := s.open + {fd})
    case Handle(HungUp(fd), _) => s.(queue := Without(s.queue, fd), open := s.open - {fd})
    case Handle(Readable(fd, ok), now) => Heard(s, fd, ok, now)
    case Handle(Writable(fd, ok), now) => Heard(s, fd, ok, now)
    case Handle(Alarm, _) => s.(timeout := true)
    case Handle(Terminate, _) => s.(stop := true)
    case EndOfBatch(now) =>
      if s.timeout
      then s.(queue := StillActive(s.queue, now), open := Recent(s.open, s.queue, now), timeout := false)
      else s
    case WorkerCloses(fd, _) => s.(open := s.open - {fd}, closes := s.closes + 1, left := s.left + {fd})
  }

  function Heard(s: Lru, fd: nat, ok: bool, now: int): Lru {
    if ok then s.(queue := Without(s.queue, fd) + [Active(fd, now)])
    else s.(queue := Without(s.queue, fd), open := s.open - {fd})
  }

  // ----- runs -----

  function Run(s: Loop, inputs: seq<Input>): Loop
    decreases |inputs|
  {
    if inputs == [] then s else Run(Step(s, inputs[0]), inputs[1..])
  }

  function LruRun(s: Lru, inputs: seq<Input>): Lru
    decreases |inputs|
  {
    if inputs == [] then s else LruRun(LruStep(s, inputs[0]), inputs[1..])
  }

  /** Every input is possible when it comes, and the clock does not run backwards. */
  predicate Legal(s: Loop, clock: int, inputs: seq<Input>)
    decreases |inputs|
  {
    inputs == [] ||
    (Possible(s, inputs[0]) && clock <= inputs[0].now && Legal(Step(s, inputs[0]), inputs[0].now, inputs[1..]))
  }

  function ClockAfter(clock: int, inputs: seq<Input>): int {
    if inputs == [] then clock else inputs[|inputs| - 1].now
  }

  /** Each timer expires 15 seconds after the last activity of its connection. */
  ghost predicate Matches(timers: seq<Entry>, queue: seq<Active>) {
    |timers| == |queue| &&
    forall i | 0 <= i < |timers| :: timers[i] == Entry(queue[i].fd, queue[i].last + 3 * TIMESLOT)
  }

  /** By last activity, none later than `clock` */
  ghost predicate Ordered(queue: seq<Active>, clock: int) {
    && (forall i, j | 0 <= i < j < |queue| :: queue[i].last <= queue[j].last)
    && (forall i | 0 <= i < |queue| :: queue[i].last <= clock)
  }

  /**
   Open connections are in the queue, and the queue holds each of them once and nothing else, but for what
   workers have left.
  */
  ghost predicate Tracked(queue: seq<Active>, open: set<nat>, left: set<nat>) {
    && (forall fd | fd in open :: exists i :: 0 <= i < |queue| && queue[i].fd == fd)
    && (forall i | 0 <= i < |queue| :: queue[i].fd in open || queue[i].fd in left)
    && (forall i, j | 0 <= i < j < |queue| :: queue[i].fd == queue[j].fd ==> queue[i].fd in left)
  }

  /** The timers are the queue, and its length is m_user_count and the number of closes by workers. */
  ghost predicate Refines(s: Loop, q: Lru, clock: int) {
    && Matches(s.timers, q.queue) && Ordered(q.queue, clock) && Tracked(q.queue, q.open, q.left)
    && s.open == q.open && s.userCount + q.closes == |q.queue| && s.timeout == q.timeout && s.stop == q.stop
  }

  // ----- the parts of a step -----

  lemma {:induction false} WithoutIs(queue: seq<Active>, fd: nat, i: nat)
    requires i < |queue| && queue[i].fd == fd && forall k | i < k < |queue| :: queue[k].fd != fd
    ensures Without(queue, fd) == Remove(queue, i)
    decreases |queue|
  {
    RemoveIsSplit(queue, i);
    var n := |queue| - 1;
    if i < n {
      WithoutIs(queue[..n], fd, i);
      RemoveIsSplit(queue[..n], i);
      assert queue[..n][..i] == queue[..i] && queue[..n][i + 1..] + [queue[n]] == queue[i + 1..];
    }
  }

  lemma {:induction false} StillActiveIs(queue: seq<Active>, now: int, n: nat)
    requires n <= |queue|
    requires forall i, j | 0 <= i < j < |queue| :: queue[i].last <= queue[j].last
    requires forall i | 0 <= i < n :: queue[i].last + 3 * TIMESLOT <= now
    requires n < |queue| ==> queue[n].last + 3 * TIMESLOT > now
    ensures StillActive(queue, now) == queue[n..]
    decreases |queue|
  {
    if queue != [] {
      StillActiveIs(queue[1..], now, if n > 0 then n - 1 else 0);
    }
  }

  /** With a clock that does not run backwards an entry of now goes to the end of the list. */
  lemma NewestGoesLast(s: seq<Entry>, e: Entry)
    requires forall i | 0 <= i < |s| :: s[i].expire <= e.expire
    ensures Insert(s, e) == s + [e]
  {
    PlaceUnique(s, e.expire, |s|);
  }

  lemma RemoveKeepsOrdered(timers: seq<Entry>, queue: seq<Active>, clock: int, i: nat)
    requires Matches(timers, queue) && Ordered(queue, clock) && i < |timers|
    ensures Matches(Remove(timers, i), Remove(queue, i)) && Ordered(Remove(queue, i), clock)
  {
  }

  /** The newest entry of `fd` goes, and with it the connection; older entries of `fd` were left by workers. */
  lemma RemoveKeepsTracked(queue: seq<Active>, open: set<nat>, left: set<nat>, i: nat)
    requires Tracked(queue, open, left) && i < |queue|
    ensures Tracked(Remove(queue, i), open - {queue[i].fd}, left)
    ensures forall k | 0 <= k < |Remove(queue, i)| :: Remove(queue, i)[k].fd == queue[i].fd ==> queue[i].fd in left
  {
    var r := Remove(queue, i);
    forall fd | fd in open - {queue[i].fd} ensures exists k :: 0 <= k < |r| && r[k].fd == fd {
      var k :| 0 <= k < |queue| && queue[k].fd == fd;
      assert r[if k < i then k else k - 1].fd == fd;
    }
    assert forall k | 0 <= k < |r| :: r[k].fd == queue[i].fd ==> queue[i].fd in left;
  }

  lemma AppendKeepsTracked(queue: seq<Active>, open: set<nat>, left: set<nat>, a: Active)
    requires Tracked(queue, open, left) && forall k | 0 <= k < |queue| :: queue[k].fd == a.fd ==> a.fd in left
    ensures Tracked(queue + [a], open + {a.fd}, left)
  {
    var r := queue + [a];
    forall fd | fd in open + {a.fd} ensures exists k :: 0 <= k < |r| && r[k].fd == fd {
      if fd == a.fd {
        assert r[|queue|].fd == fd;
      } else {
        var k :| 0 <= k < |queue| && queue[k].fd == fd;
        assert r[k].fd == fd;
      }
    }
  }

  /** The entry that IndexOf finds is the newest of its connection. */
  lemma IndexInQueue(timers: seq<Entry>, queue: seq<Active>, fd: nat, open: set<nat>, left: set<nat>)
    requires Matches(timers, queue) && Tracked(queue, open, left) && fd in open
    ensures var i := IndexOf(timers, fd);
      i < |timers| && queue[i].fd == fd && forall k | i < k < |queue| :: queue[k].fd != fd
  {
    var k :| 0 <= k < |queue| && queue[k].fd == fd;
    assert Fds(timers)[k] == fd;
    assert forall j | 0 <= j < |queue| :: Fds(timers)[j] == queue[j].fd;
  }

  lemma RemoveRefines(timers: seq<Entry>, queue: seq<Active>, clock: int, fd: nat, open: set<nat>, left: set<nat>)
    requires Matches(timers, queue) && Ordered(queue, clock) && Tracked(queue, open, left) && fd in open
    ensures var i := IndexOf(timers, fd);
      && i < |timers| && |queue| == |timers| && Without(queue, fd) == Remove(queue, i)
      && Matches(Remove(timers, i), Remove(queue, i)) && Ordered(Remove(queue, i), clock)
      && Tracked(Remove(queue, i), open - {fd}, left)
      && forall k | 0 <= k < |Remove(queue, i)| :: Remove(queue, i)[k].fd == fd ==> fd in left
  {
    hide Without, Ordered, IndexOf, Tracked;
    var i := IndexOf(timers, fd);
    IndexInQueue(timers, queue, fd, open, left);
    WithoutIs(queue, fd, i);
    RemoveKeepsOrdered(timers, queue, clock, i);
    RemoveKeepsTracked(queue, open, left, i);
  }

  lemma AppendRefines(timers: seq<Entry>, queue: seq<Active>, clock: int, fd: nat, now: int)
    requires Matches(timers, queue) && Ordered(queue, clock) && clock <= now
    ensures Matches(Insert(timers, Entry(fd, now + 3 * TIMESLOT)), queue + [Active(fd, now)])
    ensures Ordered(queue + [Active(fd, now)], now) && |Insert(timers, Entry(fd, now + 3 * TIMESLOT))| == |queue| + 1
  {
    hide Insert;
    NewestGoesLast(timers, Entry(fd, now + 3 * TIMESLOT));
  }

  lemma PostponeRefines(s: Loop, q: Lru, clock: int, fd: nat, now: int)
    requires Refines(s, q, clock) && clock <= now && fd in s.open
    ensures Refines(Postpone(s, fd, now), Heard(q, fd, true, now), now)
  {
    hide Without, Insert, Matches, Ordered, Tracked;
    RemoveRefines(s.timers, q.queue, clock, fd, q.open, q.left);
    var rest := Without(q.queue, fd);
    AppendRefines(Remove(s.timers, IndexOf(s.timers, fd)), rest, clock, fd, now);
    AppendKeepsTracked(rest, q.open - {fd}, q.left, Active(fd, now));
    assert q.open - {fd} + {fd} == q.open;
  }

  lemma CloseRefines(s: Loop, q: Lru, clock: int, fd: nat, now: int)
    requires Refines(s, q, clock) && clock <= now && fd in s.open
    ensures Refines(Close(s, fd), Heard(q, fd, false, now), now)
  {
    hide Without, Matches, Ordered, Tracked;
    RemoveRefines(s.timers, q.queue, clock, fd, q.open, q.left);
    OrderedLater(Without(q.queue, fd), clock, now);
  }

  lemma AcceptRefines(s: Loop, q: Lru, clock: int, fd: nat, now: int)
    requires Refines(s, q, clock) && clock <= now && fd !in s.open
    ensures Refines(Admit(s, fd, now), LruStep(q, Handle(Accepted(fd), now)), now)
  {
    hide Insert, Matches, Ordered;
    OrderedLater(q.queue, clock, now);
    AppendRefines(s.timers, q.queue, clock, fd, now);
    AppendKeepsTracked(q.queue, q.open, q.left, Active(fd, now));
  }

  lemma WorkerRefines(s: Loop, q: Lru, clock: int, fd: nat, now: int)
    requires Refines(s, q, clock) && clock <= now && fd in s.open
    ensures Refines(Step(s, WorkerCloses(fd, now)), LruStep(q, WorkerCloses(fd, now)), now)
  {
    OrderedLater(q.queue, clock, now);
  }

  lemma TickRefines(s: Loop, q: Lru, clock: int, now: int)
    requires Refines(s, q, clock) && clock <= now
    ensures Refines(Step(s, EndOfBatch(now)), LruStep(q, EndOfBatch(now)), now)
  {
    hide StillActive, Expired, Matches, Ordered, Tracked, Fresh;
    OrderedLater(q.queue, clock, now);
    DropExpired(s.timers, q.queue, clock, now);
    DropKeepsTracked(s.timers, q.queue, q.open, q.left, clock, now);
  }

  lemma OrderedLater(queue: seq<Active>, clock: int, now: int)
    requires Ordered(queue, clock) && clock <= now
    ensures Ordered(queue, now)
  {
  }

  /** What tick() keeps is what is still active. */
  lemma DropExpired(timers: seq<Entry>, queue: seq<Active>, clock: int, now: int)
    requires Matches(timers, queue) && Ordered(queue, clock) && clock <= now
    ensures var n := Expired(timers, now);
      && |timers| == |queue| && StillActive(queue, now) == queue[n..]
      && Matches(timers[n..], queue[n..]) && Ordered(queue[n..], now)
  {
    hide StillActive, Expired;
    var n := Expired(timers, now);
    assert forall i | 0 <= i < n :: timers[i].expire == queue[i].last + 3 * TIMESLOT;
    StillActiveIs(queue, now, n);
  }

  /** The expired entries are exactly those before the first that is still active. */
  lemma ExpiredIsPrefix(timers: seq<Entry>, queue: seq<Active>, clock: int, now: int, i: nat)
    requires Matches(timers, queue) && Ordered(queue, clock) && i < |queue|
    ensures i < Expired(timers, now) <==> now - queue[i].last >= 3 * TIMESLOT
  {
    hide Expired;
    var n := Expired(timers, now);
    if n < |timers| {
      assert timers[n].expire == queue[n].last + 3 * TIMESLOT;
    }
    assert timers[i].expire == queue[i].last + 3 * TIMESLOT;
  }

  /** The callbacks close the connections that have an entry which is not active any more. */
  lemma TickCloses(timers: seq<Entry>, queue: seq<Active>, clock: int, now: int, fd: nat)
    requires Matches(timers, queue) && Ordered(queue, clock)
    ensures fd !in Fds(timers)[..Expired(timers, now)] <==> Fresh(queue, fd, now)
  {
    hide Expired, Ordered;
    var n := Expired(timers, now);
    forall i | 0 <= i < |queue|
      ensures Fds(timers)[i] == queue[i].fd && (i < n <==> now - queue[i].last >= 3 * TIMESLOT)
    {
      ExpiredIsPrefix(timers, queue, clock, now, i);
    }
    if !Fresh(queue, fd, now) {
      var i :| 0 <= i < |queue| && queue[i].fd == fd && now - queue[i].last >= 3 * TIMESLOT;
      assert Fds(timers)[..n][i] == fd;
    }
  }

  lemma DropKeepsTracked(timers: seq<Entry>, queue: seq<Active>, open: set<nat>, left: set<nat>, clock: int, now: int)
    requires Matches(timers, queue) && Ordered(queue, clock) && Tracked(queue, open, left)
    ensures var n := Expired(timers, now);
      && n <= |queue|
      && Unlisted(open, Fds(timers)[..n]) == Recent(open, queue, now)
      && Tracked(queue[n..], Recent(open, queue, now), left)
  {
    hide Expired, Ordered, Tracked, Fresh;
    var n := Expired(timers, now);
    forall fd ensures fd !in Fds(timers)[..n] <==> Fresh(queue, fd, now) {
      TickCloses(timers, queue, clock, now, fd);
    }
    forall i | 0 <= i < |queue| ensures i < n <==> now - queue[i].last >= 3 * TIMESLOT {
      ExpiredIsPrefix(timers, queue, clock, now, i);
    }
    SuffixIsTracked(queue, open, left, now, n);
  }

  lemma SuffixIsTracked(queue: seq<Active>, open: set<nat>, left: set<nat>, now: int, n: nat)
    requires Tracked(queue, open, left) && n <= |queue|
    requires forall i | 0 <= i < |queue| :: i < n <==> now - queue[i].last >= 3 * TIMESLOT
    ensures Tracked(queue[n..], Recent(open, queue, now), left)
  {
    var r, open' := queue[n..], Recent(open, queue, now);
    forall fd | fd in open' ensures exists k :: 0 <= k < |r| && r[k].fd == fd {
      var k :| 0 <= k < |queue| && queue[k].fd == fd;
      assert r[k - n].fd == fd;
    }
    forall i | 0 <= i < |r| ensures r[i].fd in open' || r[i].fd in left {
      if r[i].fd in open && !Fresh(queue, r[i].fd, now) {
        var k :| 0 <= k < |queue| && queue[k].fd == r[i].fd && now - queue[k].last >= 3 * TIMESLOT;
        assert k < n && queue[k].fd == queue[n + i].fd;
      }
    }
  }

  /** One input changes the list as the queue of last activity prescribes. */
  lemma StepRefines(s: Loop, q: Lru, clock: int, input: Input)
    requires Refines(s, q, clock) && Possible(s, input) && clock <= input.now
    ensures Refines(Step(s, input), LruStep(q, input), input.now)
  {
    hide Close, Postpone, Admit, Heard;
    match input
    case Handle(Accepted(fd), now) => AcceptRefines(s, q, clock, fd, now);
    case Handle(HungUp(fd), now) =>
      CloseRefines(s, q, clock, fd, now);
      HungUpIsFailure(q, fd, now);
    case Handle(Readable(fd, ok), now) =>
      if ok { PostponeRefines(s, q, clock, fd, now); } else { CloseRefines(s, q, clock, fd, now); }
    case Handle(Writable(fd, ok), now) =>
      if ok { PostponeRefines(s, q, clock, fd, now); } else { CloseRefines(s, q, clock, fd, now); }
    case Handle(Alarm, now) => OrderedLater(q.queue, clock, now);
    case Handle(Terminate, now) => OrderedLater(q.queue, clock, now);
    case EndOfBatch(now) => TickRefines(s, q, clock, now);
    case WorkerCloses(fd, now) => WorkerRefines(s, q, clock, fd, now);
  }

  lemma HungUpIsFailure(q: Lru, fd: nat, now: int)
    ensures LruStep(q, Handle(HungUp(fd), now)) == Heard(q, fd, false, now)
  {
  }

  /**
   In every legal run the timer list is the queue of last activity, and its length m_user_count and the closes by
   workers.
  */
  lemma {:induction false} TimersAreLru(s: Loop, q: Lru, clock: int, inputs: seq<Input>)
    requires Refines(s, q, clock) && Legal(s, clock, inputs)
    ensures Refines(Run(s, inputs), LruRun(q, inputs), ClockAfter(clock, inputs))
    decreases |inputs|
  {
    hide Refines, Step, LruStep, Possible;
    if inputs != [] {
      StepRefines(s, q, clock, inputs[0]);
      TimersAreLru(Step(s, inputs[0]), LruStep(q, inputs[0]), inputs[0].now, inputs[1..]);
    }
  }

  /**
   A tick closes a connection exactly if some timer of its descriptor, be it an old one, has been idle for 15
   seconds.
  */
  lemma ExpiryIsExact(s: Loop, q: Lru, clock: int, now: int, fd: nat)
    requires Refines(s, q, clock) && s.timeout && fd in s.open
    ensures fd in Step(s, EndOfBatch(now)).open <==> Fresh(q.queue, fd, now)
  {
    hide Expired, Matches, Ordered, Tracked, Fresh;
    TickCloses(s.timers, q.queue, clock, now, fd);
  }

  // ----- the same in terms of the inputs alone -----

  /** The loop before its first event */
  const START := Loop([], {}, 0, false, false)
  const NOBODY := Lru([], {}, 0, {}, false, false)

  /** An accept of `fd`, or a successful read or write on it */
  predicate Touches(input: Input, fd: nat) {
    input.Handle? && input.event in {Accepted(fd), Readable(fd, true), Writable(fd, true)}
  }

  /** When `fd` was last accepted, read or written */
  function LastTouch(inputs: seq<Input>, fd: nat): Option<int> {
    if inputs == [] then None
    else if Touches(inputs[|inputs| - 1], fd) then Some(inputs[|inputs| - 1].now)
    else LastTouch(inputs[..|inputs| - 1], fd)
  }

  /** The descriptors that workers have closed, one for each close */
  function Closed(inputs: seq<Input>): seq<nat> {
    if inputs == [] then []
    else
      var last := inputs[|inputs| - 1];
      Closed(inputs[..|inputs| - 1]) + if last.WorkerCloses? then [last.fd] else []
  }

  /** The time in the newest entry of `fd` */
  function LastOf(queue: seq<Active>, fd: nat): Option<int> {
    if queue == [] then None
    else if queue[|queue| - 1].fd == fd then Some(queue[|queue| - 1].last)
    else LastOf(queue[..|queue| - 1], fd)
  }

  lemma {:induction false} LastStep(s: Loop, q: Lru, inputs: seq<Input>)
    requires inputs != []
    ensures var before, last := inputs[..|inputs| - 1], inputs[|inputs| - 1];
      Run(s, inputs) == Step(Run(s, before), last) && LruRun(q, inputs) == LruStep(LruRun(q, before), last)
    decreases |inputs|
  {
    hide Step, LruStep;
    if |inputs| > 1 {
      assert inputs[..|inputs| - 1][1..] == inputs[1..][..|inputs| - 2];
      LastStep(Step(s, inputs[0]), LruStep(q, inputs[0]), inputs[1..]);
    }
  }

  lemma {:induction false} LegalBefore(s: Loop, clock: int, inputs: seq<Input>)
    requires inputs != [] && Legal(s, clock, inputs)
    ensures var before, last := inputs[..|inputs| - 1], inputs[|inputs| - 1];
      Legal(s, clock, before) && Possible(Run(s, before), last) && ClockAfter(clock, before) <= last.now
    decreases |inputs|
  {
    hide Step, Possible;
    if |inputs| > 1 {
      assert inputs[..|inputs| - 1][1..] == inputs[1..][..|inputs| - 2];
      LegalBefore(Step(s, inputs[0]), inputs[0].now, inputs[1..]);
    }
  }

  lemma LastOfAppend(queue: seq<Active>, a: Active, fd: nat)
    ensures LastOf(queue + [a], fd) == if a.fd == fd then Some(a.last) else LastOf(queue, fd)
  {
    assert (queue + [a])[..|queue|] == queue;
  }

  lemma {:induction false} LastOfWithout(queue: seq<Active>, gone: nat, fd: nat)
    requires gone != fd
    ensures LastOf(Without(queue, gone), fd) == LastOf(queue, fd)
    decreases |queue|
  {
    var n := |queue| - 1;
    if queue != [] && queue[n].fd != gone {
      LastOfWithout(queue[..n], gone, fd);
      LastOfAppend(Without(queue[..n], gone), queue[n], fd);
    }
  }

  lemma {:induction false} LastOfDrop(queue: seq<Active>, k: nat, fd: nat)
    requires k <= |queue| && forall i | 0 <= i < k :: queue[i].fd != fd
    ensures LastOf(queue[k..], fd) == LastOf(queue, fd)
    decreases |queue|
  {
    var n := |queue| - 1;
    if k == |queue| {
      NotLast(queue, fd);
    } else if queue[n].fd != fd {
      assert queue[k..][..n - k] == queue[..n][k..];
      LastOfDrop(queue[..n], k, fd);
    }
  }

  lemma {:induction false} NotLast(queue: seq<Active>, fd: nat)
    requires forall i | 0 <= i < |queue| :: queue[i].fd != fd
    ensures LastOf(queue, fd) == None
  {
    if queue != [] {
      NotLast(queue[..|queue| - 1], fd);
    }
  }

  /** The newest entry is one of the queue. */
  lemma {:induction false} LastIsEntry(queue: seq<Active>, fd: nat) returns (i: nat)
    requires exists k :: 0 <= k < |queue| && queue[k].fd == fd
    ensures i < |queue| && queue[i].fd == fd && LastOf(queue, fd) == Some(queue[i].last)
    decreases |queue|
  {
    var n := |queue| - 1;
    if queue[n].fd == fd {
      i := n;
    } else {
      var k :| 0 <= k < |queue| && queue[k].fd == fd;
      assert queue[..n][k].fd == fd;
      i := LastIsEntry(queue[..n], fd);
    }
  }

  lemma TickTouches(s: Loop, q: Lru, clock: int, now: int, fd: nat)
    requires Refines(s, q, clock) && clock <= now && Fresh(q.queue, fd, now)
    ensures LastOf(StillActive(q.queue, now), fd) == LastOf(q.queue, fd)
  {
    hide StillActive, Expired, Tracked;
    DropExpired(s.timers, q.queue, clock, now);
    var n := Expired(s.timers, now);
    forall i | 0 <= i < n ensures q.queue[i].fd != fd {
      ExpiredIsPrefix(s.timers, q.queue, clock, now, i);
    }
    LastOfDrop(q.queue, n, fd);
  }

  /** What a step leaves open was touched by the step, or was open before and its newest entry has not changed. */
  lemma StepTouches(s: Loop, q: Lru, clock: int, input: Input, fd: nat)
    requires Refines(s, q, clock) && Possible(s, input) && clock <= input.now && fd in LruStep(q, input).open
    ensures if Touches(input, fd) then LastOf(LruStep(q, input).queue, fd) == Some(input.now)
      else fd in q.open && LastOf(LruStep(q, input).queue, fd) == LastOf(q.queue, fd)
  {
    hide Without, StillActive, Fresh, LastOf, Matches, Ordered, Tracked;
    match input
    case Handle(Accepted(g), now) => LastOfAppend(q.queue, Active(g, now), fd);
    case Handle(HungUp(g), _) => LastOfWithout(q.queue, g, fd);
    case Handle(Readable(g, ok), now) => HeardTouches(q, g, ok, now, fd);
    case Handle(Writable(g, ok), now) => HeardTouches(q, g, ok, now, fd);
    case EndOfBatch(now) => if s.timeout { TickTouches(s, q, clock, now, fd); }
    case _ =>
  }

  lemma HeardTouches(q: Lru, g: nat, ok: bool, now: int, fd: nat)
    requires fd in Heard(q, g, ok, now).open
    ensures LastOf(Heard(q, g, ok, now).queue, fd) == if ok && g == fd then Some(now) else LastOf(q.queue, fd)
    ensures fd in q.open && (g == fd ==> ok)
  {
    hide Without, LastOf;
    LastOfAppend(Without(q.queue, g), Active(g, now), fd);
    if g != fd {
      LastOfWithout(q.queue, g, fd);
    }
  }

  lemma StartRefines(clock: int)
    ensures Refines(START, NOBODY, clock)
  {
  }

  /** The newest entry of an open connection holds the time of its last accept, read or write in the inputs. */
  lemma {:induction false} QueueIsHistory(clock: int, inputs: seq<Input>, fd: nat)
    requires Legal(START, clock, inputs) && fd in LruRun(NOBODY, inputs).open
    ensures LastOf(LruRun(NOBODY, inputs).queue, fd) == LastTouch(inputs, fd)
    decreases |inputs|
  {
    hide Step, LruStep, Possible, Touches, Refines, Legal, LastOf;
    NothingOpen();
    if inputs != [] {
      hide Run, LruRun;
      var before, last := inputs[..|inputs| - 1], inputs[|inputs| - 1];
      LegalBefore(START, clock, inputs);
      LastStep(START, NOBODY, inputs);
      StartRefines(clock);
      TimersAreLru(START, NOBODY, clock, before);
      StepTouches(Run(START, before), LruRun(NOBODY, before), ClockAfter(clock, before), last, fd);
      if !Touches(last, fd) {
        QueueIsHistory(clock, before, fd);
      }
    }
  }

  lemma NothingOpen()
    ensures LruRun(NOBODY, []).open == {}
  {
  }

  /** What the queue remembers of the closes by workers */
  lemma {:induction false} ClosesAreCounted(inputs: seq<Input>)
    ensures var q := LruRun(NOBODY, inputs);
      q.closes == |Closed(inputs)| && forall fd :: fd in q.left <==> fd in Closed(inputs)
    decreases |inputs|
  {
    hide Without, StillActive, Fresh;
    if inputs != [] {
      hide LruRun;
      ClosesAreCounted(inputs[..|inputs| - 1]);
      LastStep(START, NOBODY, inputs);
    }
  }

  /** In every run the length of the list is m_user_count and the number of closes by workers. */
  lemma CountOverRuns(clock: int, inputs: seq<Input>)
    requires Legal(START, clock, inputs)
    ensures |Run(START, inputs).timers| == Run(START, inputs).userCount + |Closed(inputs)|
  {
    hide Run, LruRun, Legal, Closed, Ordered, Tracked;
    StartRefines(clock);
    TimersAreLru(START, NOBODY, clock, inputs);
    ClosesAreCounted(inputs);
  }

  /**
   In every run a tick closes an open connection whose last accept, read or write is 15 seconds ago, and if no
   worker has closed its descriptor before, it closes no other.
  */
  lemma ExpiryOverRuns(clock: int, inputs: seq<Input>, now: int, fd: nat)
    requires Legal(START, clock, inputs) && ClockAfter(clock, inputs) <= now
    requires Run(START, inputs).timeout && fd in Run(START, inputs).open
    ensures var last := LastTouch(inputs, fd);
      var spared := fd in Step(Run(START, inputs), EndOfBatch(now)).open;
      && last.Some?
      && (spared ==> now - last.value < 15)
      && (fd !in Closed(inputs) ==> (spared <==> now - last.value < 15))
  {
    hide Step, LruStep, Run, LruRun, Legal, LastTouch, LastOf, Matches, Ordered;
    var s, q := Run(START, inputs), LruRun(NOBODY, inputs);
    StartRefines(clock);
    TimersAreLru(START, NOBODY, clock, inputs);
    QueueIsHistory(clock, inputs, fd);
    ClosesAreCounted(inputs);
    ExpiryIsExact(s, q, ClockAfter(clock, inputs), now, fd);
    var i := LastIsEntry(q.queue, fd);
    assert forall k | 0 <= k < |q.queue| && q.queue[k].fd == fd && k != i :: fd in q.left;
  }

  /**
   A descriptor that a worker has closed is accepted again; the old timer closes the new connection within a
   second.
  */
  lemma StaleTimerCloses(fd: nat)
    ensures var inputs := [Handle(Accepted(fd), 0), WorkerCloses(fd, 1), Handle(Accepted(fd), 14), Handle(Alarm, 15)];
      var s := Run(START, inputs);
      var closed := Step(s, EndOfBatch(15));
      && Legal(START, 0, inputs) && fd in s.open && LastTouch(inputs, fd) == Some(14)
      && fd !in closed.open && closed.timers == [Entry(fd, 29)]
      && Step(Step(closed, Handle(Alarm, 29)), EndOfBatch(29)) == Loop([], {}, -1, false, false)
  {
    hide Run, Legal, LastTouch, Step, Touches;
    var a, w, b, t := Handle(Accepted(fd), 0), WorkerCloses(fd, 1), Handle(Accepted(fd), 14), Handle(Alarm, 15);
    StaleSteps(fd);
    StaleTick(fd);
    StaleCount(fd);
    FourInputs(START, 0, a, w, b, t);
    StaleTouch(fd);
    TouchedBefore([a, w, b], t, fd);
    TouchedLast([a, w], b, fd);
    assert [a, w] + [b] == [a, w, b] && [a, w, b] + [t] == [a, w, b, t];
  }

  /** The second timer of the closed connection is counted off as well. */
  lemma StaleCount(fd: nat)
    ensures var s := Loop([Entry(fd, 29)], {}, 0, false, false);
      Step(Step(s, Handle(Alarm, 29)), EndOfBatch(29)) == Loop([], {}, -1, false, false)
  {
    hide Expired;
    var timers := [Entry(fd, 29)];
    assert timers[0].expire == 29;
  }

  lemma StaleTouch(fd: nat)
    ensures Touches(Handle(Accepted(fd), 14), fd) && !Touches(Handle(Alarm, 15), fd)
  {
  }

  /** The list while the timer of the closed connection is still in it */
  lemma StaleSteps(fd: nat)
    ensures var s1 := Loop([Entry(fd, 15)], {fd}, 1, false, false);
      var s2 := Loop([Entry(fd, 15)], {}, 0, false, false);
      && Step(START, Handle(Accepted(fd), 0)) == s1
      && Step(s1, WorkerCloses(fd, 1)) == s2
      && Step(s2, Handle(Accepted(fd), 14)) == Loop([Entry(fd, 15), Entry(fd, 29)], {fd}, 1, false, false)
  {
    hide Insert;
    NewestGoesLast([], Entry(fd, 15));
    NewestGoesLast([Entry(fd, 15)], Entry(fd, 29));
    assert [] + [Entry(fd, 15)] == [Entry(fd, 15)];
  }

  lemma StaleTick(fd: nat)
    ensures var s := Loop([Entry(fd, 15), Entry(fd, 29)], {fd}, 1, false, false);
      var t := Step(s, Handle(Alarm, 15));
      && Step(t, EndOfBatch(15)) == Loop([Entry(fd, 29)], {}, 0, false, false) && fd in t.open && t.timeout
  {
    hide Expired;
    var timers := [Entry(fd, 15), Entry(fd, 29)];
    assert timers[0].expire == 15 && timers[1].expire == 29;
    assert Fds(timers)[..1][0] == fd;
  }

  lemma RunOn(s: Loop, clock: int, input: Input, rest: seq<Input>)
    ensures Run(s, [input] + rest) == Run(Step(s, input), rest)
    ensures Legal(s, clock, [input] + rest) <==>
      Possible(s, input) && clock <= input.now && Legal(Step(s, input), input.now, rest)
    ensures Run(s, []) == s && Legal(s, clock, [])
  {
    hide Step, Possible;
    assert ([input] + rest)[1..] == rest;
  }

  lemma FourInputs(s: Loop, clock: int, a: Input, b: Input, c: Input, d: Input)
    ensures var s1 := Step(s, a);
      var s2 := Step(s1, b);
      var s3 := Step(s2, c);
      && Run(s, [a, b, c, d]) == Step(s3, d)
      && (Legal(s, clock, [a, b, c, d]) <==>
            && Possible(s, a) && Possible(s1, b) && Possible(s2, c) && Possible(s3, d)
            && clock <= a.now <= b.now <= c.now <= d.now)
  {
    hide Step, Possible, Run, Legal;
    var s1 := Step(s, a);
    var s2 := Step(s1, b);
    var s3 := Step(s2, c);
    assert [a, b, c, d] == [a] + ([b] + ([c] + ([d] + [])));
    RunOn(s, clock, a, [b] + ([c] + ([d] + [])));
    RunOn(s1, a.now, b, [c] + ([d] + []));
    RunOn(s2, b.now, c, [d] + []);
    RunOn(s3, c.now, d, []);
    RunOn(Step(s3, d), d.now, d, []);
  }

  lemma TouchedLast(inputs: seq<Input>, input: Input, fd: nat)
    requires Touches(input, fd)
    ensures LastTouch(inputs + [input], fd) == Some(input.now)
  {
  }

  lemma TouchedBefore(inputs: seq<Input>, input: Input, fd: nat)
    requires !Touches(input, fd)
    ensures LastTouch(inputs + [input], fd) == LastTouch(inputs, fd)
  {
    assert (inputs + [input])[..|inputs|] == inputs;
  }
}
