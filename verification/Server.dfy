/** The loop of main_success as an object over the real timer list. */
module Server {
  import opened TimerList
  import opened EventLoop

  /** `timer` is in the list, and no later one is for the same descriptor. */
  ghost predicate Newest(spine: seq<Timer>, timer: Timer) {
    exists i | 0 <= i < |spine| :: spine[i] == timer && forall k | i < k < |spine| :: spine[k].sockfd != timer.sockfd
  }

  /** The timer pointer of an open connection leads to the newest timer of its descriptor. */
  ghost predicate Registered(spine: seq<Timer>, usersTimer: map<nat, Timer>, open: set<nat>) {
    forall fd | fd in open :: fd in usersTimer && usersTimer[fd].sockfd == fd && Newest(spine, usersTimer[fd])
  }

  ghost predicate NoneLater(s: seq<Entry>, expire: int) {
    forall i | 0 <= i < |s| :: s[i].expire <= expire
  }

  lemma RegisteredWithout(spine: seq<Timer>, usersTimer: map<nat, Timer>, open: set<nat>, i: nat)
    requires Registered(spine, usersTimer, open) && i < |spine|
    ensures Registered(Remove(spine, i), usersTimer, open - {spine[i].sockfd})
  {
    forall fd | fd in open && fd != spine[i].sockfd ensures Newest(Remove(spine, i), usersTimer[fd]) {
      NewestWithout(spine, usersTimer[fd], i);
    }
  }

  lemma NewestWithout(spine: seq<Timer>, timer: Timer, i: nat)
    requires Newest(spine, timer) && i < |spine| && spine[i].sockfd != timer.sockfd
    ensures Newest(Remove(spine, i), timer)
  {
    var j :| 0 <= j < |spine| && spine[j] == timer && forall k | j < k < |spine| :: spine[k].sockfd != timer.sockfd;
    assert Remove(spine, i)[if j < i then j else j - 1] == timer;
  }

  lemma RegisteredWith(spine: seq<Timer>, usersTimer: map<nat, Timer>, open: set<nat>, timer: Timer)
    requires Registered(spine, usersTimer, open - {timer.sockfd})
    ensures Registered(spine + [timer], usersTimer[timer.sockfd := timer], open + {timer.sockfd})
  {
    var r := spine + [timer];
    assert r[|spine|] == timer;
    forall fd | fd in open && fd != timer.sockfd ensures Newest(r, usersTimer[fd]) {
      var j :| 0 <= j < |spine| && spine[j] == usersTimer[fd] && forall k | j < k < |spine| :: spine[k].sockfd != fd;
      assert r[j] == usersTimer[fd];
    }
  }

  /** The callbacks have closed every connection whose descriptor one of the dropped timers has. */
  lemma RegisteredAfter(spine: seq<Timer>, s: seq<Entry>, usersTimer: map<nat, Timer>, open: set<nat>, now: int)
    requires Registered(spine, usersTimer, open) && |s| == |spine|
    requires forall i | 0 <= i < |s| :: s[i].sockfd == spine[i].sockfd
    ensures Registered(spine[Expired(s, now)..], usersTimer, Unlisted(open, Fired(s, now)))
  {
    hide Expired;
    var n := Expired(s, now);
    forall i | 0 <= i < n ensures spine[i].sockfd in Fired(s, now) {
      assert Fired(s, now)[i] == s[i].sockfd;
    }
    forall fd | fd in Unlisted(open, Fired(s, now)) ensures Newest(spine[n..], usersTimer[fd]) {
      var j :| 0 <= j < |spine| && spine[j] == usersTimer[fd] && forall k | j < k < |spine| :: spine[k].sockfd != fd;
      assert spine[n..][j - n] == usersTimer[fd];
    }
  }

  lemma RegisteredLess(spine: seq<Timer>, usersTimer: map<nat, Timer>, open: set<nat>, fd: nat)
    requires Registered(spine, usersTimer, open)
    ensures Registered(spine, usersTimer, open - {fd})
  {
  }

  /** A timer that expires no earlier than the others goes to the end. */
  lemma GoesLast(spine: seq<Timer>, s: seq<Entry>, timer: Timer, expire: int)
    requires NoneLater(s, expire) && |s| == |spine|
    ensures InsertAt(spine, Place(s, expire), timer) == spine + [timer]
  {
    PlaceUnique(s, expire, |s|);
  }

  lemma NoneLaterWithout(s: seq<Entry>, i: nat, expire: int)
    requires NoneLater(s, expire) && i < |s|
    ensures NoneLater(Remove(s, i), expire)
  {
  }

  lemma NoneLaterWith(s: seq<Entry>, e: Entry, expire: int)
    requires NoneLater(s, expire) && e.expire <= expire
    ensures NoneLater(Insert(s, e), expire)
  {
  }

  lemma NoneLaterAfter(s: seq<Entry>, now: int, expire: int)
    requires NoneLater(s, expire)
    ensures NoneLater(Unfired(s, now), expire)
  {
  }

  lemma NoneLaterMono(s: seq<Entry>, expire: int, expire': int)
    requires NoneLater(s, expire) && expire <= expire'
    ensures NoneLater(s, expire')
  {
  }

  lemma NodesInserted(spine: seq<Timer>, p: nat, timer: Timer)
    requires p <= |spine|
    ensures forall t | t in InsertAt(spine, p, timer) :: t in spine || t == timer
  {
  }

  lemma NodesRemoved(spine: seq<Timer>, i: nat)
    requires i < |spine|
    ensures forall t | t in Remove(spine, i) :: t in spine
  {
  }

  lemma RemoveKeepsOrder(s: seq<Entry>, i: nat)
    requires Ascending(s) && i < |s|
    ensures Ascending(Remove(s, i))
  {
  }

  lemma Reinserted(spine: seq<Timer>, usersTimer: map<nat, Timer>, open: set<nat>, i: nat)
    requires Registered(spine, usersTimer, open) && i < |spine| && spine[i].sockfd in open
    requires usersTimer[spine[i].sockfd] == spine[i]
    ensures Registered(Remove(spine, i) + [spine[i]], usersTimer, open)
    ensures forall t | t in Remove(spine, i) + [spine[i]] :: t in spine
  {
    var timer := spine[i];
    RegisteredWithout(spine, usersTimer, open, i);
    RegisteredWith(Remove(spine, i), usersTimer, open, timer);
    assert usersTimer[timer.sockfd := timer] == usersTimer;
    assert open + {timer.sockfd} == open;
  }

  class Server {
    const timerList: SortedTimerList
    /** The timer field of each client_data; it keeps its value when the timer is deleted. */
    var usersTimer: map<nat, Timer>
    var userCount: int
    var timeout: bool
    var stopServer: bool
    /** The descriptors of open connections */
    ghost var open: set<nat>
    /** The time of the last event; the clock does not run backwards. */
    ghost var clock: int

    ghost predicate Valid()
      reads this, timerList, timerList.spine
    {
      && timerList.Valid()
      && Registered(timerList.spine, usersTimer, open)
      && NoneLater(timerList.Entries(), clock + 3 * TIMESLOT)
    }

    ghost function View(): EventLoop.Loop
      reads this, timerList, timerList.spine
    {
      EventLoop.Loop.Loop(timerList.Entries(), open, userCount, timeout, stopServer)
    }

    constructor ()
      ensures Valid() && fresh(timerList) && View() == START
    {
      timerList := new SortedTimerList();
      usersTimer := map[];
      userCount, timeout, stopServer, open, clock := 0, false, false, {}, 0;
    }

    /** A new connection: its timer goes into the list. */
    method Accept(fd: nat, now: int)
      requires Valid() && clock <= now && fd !in open
      modifies this, timerList, timerList.Nodes()
      ensures Valid() && clock == now && View() == Step(old(View()), Handle(Accepted(fd), now))
      ensures fresh(timerList.Nodes() - old(timerList.Nodes()))
    {
      hide SortedTimerList.Linked, SortedTimerList.Entries, Ascending, Insert, InsertAt, Place, Registered, NoneLater;
      assert NoneLater(timerList.Entries(),
        now + 3 * TIMESLOT) by { NoneLaterMono(timerList.Entries(), clock + 3 * TIMESLOT, now + 3 * TIMESLOT); }
      clock := now;
      if userCount < MAX_FD {
        AddConnection(fd, now + 3 * TIMESLOT);
      }
    }

    method AddConnection(fd: nat, expire: int)
      requires Valid() && expire == clock + 3 * TIMESLOT && fd !in open
      modifies this`userCount, this`usersTimer, this`open, timerList, timerList.Nodes()
      ensures Valid() && userCount == old(userCount) + 1 && open == old(open) + {fd}
      ensures timerList.Entries() == Insert(old(timerList.Entries()), Entry(fd, expire))
      ensures fresh(timerList.Nodes() - old(timerList.Nodes()))
    {
      hide SortedTimerList.Linked, SortedTimerList.Entries, Ascending, Insert, InsertAt, Place, Registered, NoneLater;
      userCount := userCount + 1;
      var timer := new Timer(fd, expire);
      ghost var spine, entries := timerList.spine, timerList.Entries();
      RegisteredLess(spine, usersTimer, open, fd);
      RegisteredWith(spine, usersTimer, open, timer);
      GoesLast(spine, entries, timer, expire);
      NoneLaterWith(entries, Entry(fd, expire), expire);
      usersTimer := usersTimer[fd := timer];
      open := open + {fd};
      timerList.AddTimer(timer);
      NodesInserted(spine, Place(entries, expire), timer);
    }

    /** The timer of a live connection, and where it is in the list */
    method TimerOf(fd: nat) returns (timer: Timer, ghost i: nat)
      requires Valid() && fd in open
      ensures i == IndexOf(View().timers, fd) && i < |timerList.spine| && timer == timerList.spine[i]
      ensures timer.sockfd == fd && fd in usersTimer && timer == usersTimer[fd]
    {
      timer := usersTimer[fd];
      ghost var k :| 0 <= k < |timerList.spine| && timerList.spine[k] == timer &&
        forall j | k < j < |timerList.spine| :: timerList.spine[j].sockfd != fd;
      i := k;
      LastIndexUnique(Fds(timerList.Entries()), fd, i);
    }

    /** cb_func and del_timer: a hang-up, a failed read or a failed write */
    method CloseConnection(fd: nat, now: int)
      requires Valid() && clock <= now && fd in open
      modifies this, timerList, timerList.Nodes()
      ensures Valid() && clock == now && View() == Close(old(View()), fd)
      ensures timerList.Nodes() <= old(timerList.Nodes())
    {
      hide SortedTimerList.Linked, SortedTimerList.Entries, Ascending, Remove, Registered, NoneLater, IndexOf;
      var timer;
      ghost var i;
      timer, i := TimerOf(fd);
      NoneLaterMono(timerList.Entries(), clock + 3 * TIMESLOT, now + 3 * TIMESLOT);
      clock := now;
      userCount := userCount - 1;
      DropTimer(timer, i);
    }

    /** del_timer; the callback has closed the connection. */
    method DropTimer(timer: Timer, ghost i: nat)
      requires Valid() && i < |timerList.spine| && timer == timerList.spine[i]
      modifies this`open, timerList, timerList.Nodes()
      ensures Valid() && timerList.Nodes() <= old(timerList.Nodes())
      ensures timerList.Entries() == Remove(old(timerList.Entries()), i) && open == old(open) - {timer.sockfd}
    {
      hide SortedTimerList.Linked, SortedTimerList.Entries, Ascending, Remove, Registered, NoneLater;
      NoneLaterWithout(timerList.Entries(), i, clock + 3 * TIMESLOT);
      RegisteredWithout(timerList.spine, usersTimer, open, i);
      NodesRemoved(timerList.spine, i);
      open := open - {timer.sockfd};
      timerList.DelTimer(timer, i);
    }

    /** A successful read or write postpones the timer. */
    method Touch(fd: nat, now: int)
      requires Valid() && clock <= now && fd in open
      modifies this, timerList, timerList.Nodes()
      ensures Valid() && clock == now && View() == Postpone(old(View()), fd, now)
      ensures timerList.Nodes() <= old(timerList.Nodes())
    {
      hide SortedTimerList.Linked, SortedTimerList.Entries, Ascending, Remove, Insert, Registered, NoneLater, IndexOf;
      var timer;
      ghost var i;
      timer, i := TimerOf(fd);
      NoneLaterMono(timerList.Entries(), clock + 3 * TIMESLOT, now + 3 * TIMESLOT);
      clock := now;
      MoveTimer(timer, now + 3 * TIMESLOT, i);
    }

    /** The postponed expiry and adjust_timer */
    method MoveTimer(timer: Timer, expire: int, ghost i: nat)
      requires Valid() && expire == clock + 3 * TIMESLOT && i < |timerList.spine| && timer == timerList.spine[i]
      requires timer.sockfd in open && usersTimer[timer.sockfd] == timer
      modifies timerList, timerList.Nodes()
      ensures Valid() && timerList.Nodes() <= old(timerList.Nodes())
      ensures timerList.Entries() == Insert(Remove(old(timerList.Entries()), i), Entry(timer.sockfd, expire))
    {
      hide SortedTimerList.Linked, SortedTimerList.Entries, Ascending, Remove, Insert, InsertAt, Place, Registered,
          NoneLater;
      ghost var spine, entries := timerList.spine, timerList.Entries();
      SetExpire(timer, expire, i);
      timerList.AdjustTimer(timer, i);
      NoneLaterWithout(entries, i, expire);
      NoneLaterWith(Remove(entries, i), Entry(timer.sockfd, expire), expire);
      Reinserted(spine, usersTimer, open, i);
      GoesLast(Remove(spine, i), Remove(entries, i), timer, expire);
    }

    /** The assignment to expire before adjust_timer: only this entry changes. */
    method SetExpire(timer: Timer, expire: int, ghost i: nat)
      requires timerList.Valid() && i < |timerList.spine| && timer == timerList.spine[i]
      requires NoneLater(timerList.Entries(), expire)
      modifies timer`expire
      ensures timer.expire == expire && timerList.OnlyGrew(i)
      ensures Remove(timerList.Entries(), i) == Remove(old(timerList.Entries()), i)
      ensures timerList.Entries()[i] == Entry(timer.sockfd, expire)
    {
      ghost var entries := timerList.Entries();
      RemoveKeepsOrder(entries, i);
      timer.expire := expire;
      assert Remove(timerList.Entries(), i) == Remove(entries, i);
      assert forall k | 0 <= k < i :: timerList.spine[k].expire == entries[k].expire;
    }

    method HandleEvent(event: Event, now: int)
      requires Valid() && clock <= now && Possible(View(), Handle(event, now))
      modifies this, timerList, timerList.Nodes()
      ensures Valid() && clock == now && View() == Step(old(View()), Handle(event, now))
      ensures fresh(timerList.Nodes() - old(timerList.Nodes()))
    {
      match event
      case Accepted(fd) => Accept(fd, now);
      case HungUp(fd) => CloseConnection(fd, now);
      case Readable(fd, ok) => if ok { Touch(fd, now); } else { CloseConnection(fd, now); }
      case Writable(fd, ok) => if ok { Touch(fd, now); } else { CloseConnection(fd, now); }
      case Alarm => clock := now; timeout := true;
      case Terminate => clock := now; stopServer := true;
    }

    /** What close_conn in a worker does to the shared count; the timer stays in the list. */
    method CountWorkerClose(fd: nat, now: int)
      requires Valid() && clock <= now && Possible(View(), WorkerCloses(fd, now))
      modifies this
      ensures Valid() && clock == now && View() == Step(old(View()), WorkerCloses(fd, now))
    {
      hide SortedTimerList.Linked, SortedTimerList.Entries, Ascending, Registered, NoneLater;
      NoneLaterMono(timerList.Entries(), clock + 3 * TIMESLOT, now + 3 * TIMESLOT);
      RegisteredLess(timerList.spine, usersTimer, open, fd);
      clock := now;
      userCount := userCount - 1;
      open := open - {fd};
    }

    /** What follows the events of one epoll_wait: HandleTimers, if an alarm has come */
    method FinishBatch(now: int) returns (closed: seq<nat>)
      requires Valid() && clock <= now
      modifies this, timerList, timerList.Nodes()
      ensures Valid() && clock == now && View() == Step(old(View()), EndOfBatch(now))
      ensures timerList.Nodes() <= old(timerList.Nodes())
      ensures closed == if old(timeout) then Fired(old(View().timers), now) else []
    {
      hide SortedTimerList.Linked, SortedTimerList.Entries, Ascending, Expired, Registered, NoneLater, Unlisted,
          Fired, Unfired;
      NoneLaterMono(timerList.Entries(), clock + 3 * TIMESLOT, now + 3 * TIMESLOT);
      clock := now;
      closed := [];
      if timeout {
        closed := ExpireIdle(now);
        userCount := userCount - |closed|;
        timeout := false;
      }
    }

    /** tick(), by which the expired connections close */
    method ExpireIdle(now: int) returns (closed: seq<nat>)
      requires Valid() && clock == now
      modifies this`open, timerList, timerList.Nodes()
      ensures Valid() && timerList.Nodes() <= old(timerList.Nodes())
      ensures closed == Fired(old(timerList.Entries()), now) && open == Unlisted(old(open), closed)
      ensures timerList.Entries() == Unfired(old(timerList.Entries()), now)
    {
      hide SortedTimerList.Linked, SortedTimerList.Entries, Ascending, Expired, Registered, NoneLater, Unlisted,
          Fired, Unfired;
      NoneLaterAfter(timerList.Entries(), now, now + 3 * TIMESLOT);
      RegisteredAfter(timerList.spine, timerList.Entries(), usersTimer, open, now);
      closed := HandleTimers(now);
      open := Unlisted(open, closed);
    }

    /** The loop: every input is handled in turn, until the end of a batch finds stop_server set. */
    method MainLoop(inputs: seq<Input>) returns (used: nat)
      requires Valid() && Legal(View(), clock, inputs)
      modifies this, timerList, timerList.Nodes()
      ensures Valid() && used <= |inputs|
      ensures View() == Run(old(View()), inputs[..used]) && clock == ClockAfter(old(clock), inputs[..used])
      ensures used < |inputs| ==> stopServer && used > 0 && inputs[used - 1].EndOfBatch?
      ensures forall k | 0 <= k < used && inputs[k].EndOfBatch?
        && Run(old(View()), inputs[..k + 1]).stop :: k + 1 == used
    {
      hide Run, Legal, Step, Possible, ClockAfter, Registered, NoneLater, SortedTimerList.Linked,
          SortedTimerList.Entries, Ascending;
      ghost var start := View();
      used := 0;
      RunNothing(start, clock, inputs);
      while used < |inputs|
        invariant used <= |inputs| && Valid() && fresh(timerList.Nodes() - old(timerList.Nodes()))
        invariant View() == Run(start, inputs[..used]) && Legal(View(), clock, inputs[used..])
        invariant clock == ClockAfter(old(clock), inputs[..used])
        invariant forall k | 0 <= k < used && inputs[k].EndOfBatch? :: !Run(start, inputs[..k + 1]).stop
      {
        LegalOne(View(), clock, inputs, used);
        RunOne(start, inputs, used);
        ClockOne(old(clock), inputs, used);
        used := used + 1;
        match inputs[used - 1] {
          case Handle(event, now) => HandleEvent(event, now);
          case WorkerCloses(fd, now) => CountWorkerClose(fd, now);
          case EndOfBatch(now) =>
            var _ := FinishBatch(now);
            if stopServer {
              return;
            }
        }
      }
    }

    /** tick() and its callbacks */
    method HandleTimers(now: int) returns (closed: seq<nat>)
      requires timerList.Valid()
      modifies timerList, timerList.Nodes()
      ensures timerList.Valid() && timerList.Nodes() <= old(timerList.Nodes())
      ensures closed == Fired(old(timerList.Entries()), now)
      ensures timerList.spine == old(timerList.spine)[Expired(old(timerList.Entries()), now)..]
      ensures timerList.Entries() == Unfired(old(timerList.Entries()), now)
    {
      hide SortedTimerList.Linked, SortedTimerList.Entries, Ascending, Expired;
      ghost var before := timerList.Entries();
      closed := timerList.Tick(now);
      assert |closed| < |before| ==> before[|closed|] in timerList.Entries();
      ExpiredUnique(before, now, |closed|);
      assert closed == Fired(before, now);
    }
  }

  lemma ExpiredUnique(s: seq<Entry>, now: int, n: nat)
    requires n <= |s| && (forall i | 0 <= i < n :: s[i].expire <= now) && (n < |s| ==> s[n].expire > now)
    ensures Expired(s, now) == n
  {
    assert !(Expired(s, now) < n) && !(n < Expired(s, now));
  }

  lemma RunNothing(s: EventLoop.Loop, clock: int, inputs: seq<Input>)
    ensures inputs[..0] == [] && inputs[0..] == inputs
    ensures Run(s, inputs[..0]) == s && ClockAfter(clock, inputs[..0]) == clock
  {
  }

  lemma LegalOne(s: EventLoop.Loop, clock: int, inputs: seq<Input>, i: nat)
    requires i < |inputs| && Legal(s, clock, inputs[i..])
    ensures Possible(s, inputs[i]) && clock <= inputs[i].now
    ensures Legal(Step(s, inputs[i]), inputs[i].now, inputs[i + 1..])
  {
    hide Step, Possible;
    assert inputs[i..][0] == inputs[i] && inputs[i..][1..] == inputs[i + 1..];
  }

  lemma RunOne(s: EventLoop.Loop, inputs: seq<Input>, i: nat)
    requires i < |inputs|
    ensures Run(s, inputs[..i + 1]) == Step(Run(s, inputs[..i]), inputs[i])
  {
    hide Run, LruRun, Step, LruStep;
    assert inputs[..i + 1][..i] == inputs[..i];
    LastStep(s, NOBODY, inputs[..i + 1]);
  }

  lemma ClockOne(clock: int, inputs: seq<Input>, i: nat)
    requires i < |inputs|
    ensures ClockAfter(clock, inputs[..i + 1]) == inputs[i].now
  {
  }
}
