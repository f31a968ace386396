/** Runs of the server in which a connection comes to have two owners. */
module OwnershipRuns {
  import opened Wrappers
  import ThreadPool
  import opened Counting
  import opened Ownership
  import opened OnePlaceOnly
  import opened OpenOwners

  /** Accept, registration, delivery, and an append that is not interrupted */
  function QueueActions(fd: Fd): seq<Action> {
    [Accept(fd)] + ([Register] + ([Deliver(fd)] + ([BeginAppend] + Statements(MAIN))))
  }

  /** Four statements of one thread */
  function Statements(t: Tid): seq<Action> {
    [GoOn(t)] + ([GoOn(t)] + ([GoOn(t)] + ([GoOn(t)] + [])))
  }

  /** The main loop waits, its thread is outside append(), and the queue has room. */
  ghost predicate Quiet(s: Server) {
    && s.main == InWait && s.pool.holder == None && |s.pool.queue| <= s.pool.maxRequests
    && MAIN in s.pool.phase && s.pool.phase[MAIN].Idle?
  }

  function Queued(s: Server, fd: Fd): Server {
    s.(open := s.open + {fd}, sock := s.sock + {fd}, armed := s.armed - {fd},
       pool := s.pool.(queue := s.pool.queue + [fd], sem := s.pool.sem + 1, accepted := s.pool.accepted + [fd]))
  }

  lemma {:induction false} RunAppend(s: Server, first: seq<Action>, second: seq<Action>)
    ensures Run(s, first + second) == Run(Run(s, first), second)
    decreases |first|
  {
    hide Next;
    if first == [] {
      assert first + second == second;
    } else {
      assert (first + second)[1..] == first[1..] + second;
      RunAppend(Next(s, first[0]), first[1..], second);
    }
  }

  lemma TwoStatements(s: Server, t: Tid)
    ensures Run(s, [GoOn(t)] + ([GoOn(t)] + [])) == Next(Next(s, GoOn(t)), GoOn(t))
  {
    hide Run, Next;
    var g := GoOn(t);
    RunFirst(s, g, [g] + []);
    RunFirst(Next(s, g), g, []);
    RunFirst(Next(Next(s, g), g), g, []);
  }

  /** The test of the length and push_back */
  lemma PushRun(s: Server, fd: Fd)
    requires MAIN in s.pool.phase && s.pool.phase[MAIN] == ThreadPool.AppendEntered(fd) && s.main == Appending(fd)
    requires |s.pool.queue| <= s.pool.maxRequests
    ensures Next(Next(s, GoOn(MAIN)), GoOn(MAIN)) == s.(pool := s.pool.(queue := s.pool.queue + [fd],
      accepted := s.pool.accepted + [fd], phase := s.pool.phase[MAIN := ThreadPool.AppendPushed]))
  {
    assert s.pool.phase[MAIN := ThreadPool.AppendAdmitted(fd)][MAIN := ThreadPool.AppendPushed] ==
      s.pool.phase[MAIN := ThreadPool.AppendPushed];
  }

  /** unlock and post */
  lemma PostRun(s: Server)
    requires MAIN in s.pool.phase && s.pool.phase[MAIN].AppendPushed?
    ensures Next(Next(s, GoOn(MAIN)), GoOn(MAIN)) ==
      s.(main := InWait, pool := s.pool.(sem := s.pool.sem + 1, holder := None,
        phase := s.pool.phase[MAIN := ThreadPool.Idle]))
  {
    assert s.pool.phase[MAIN := ThreadPool.AppendUnlocked][MAIN := ThreadPool.Idle] ==
      s.pool.phase[MAIN := ThreadPool.Idle];
  }

  lemma AppendRun(s: Server, fd: Fd)
    requires MAIN in s.pool.phase && s.pool.phase[MAIN] == ThreadPool.AppendEntered(fd) && s.main == Appending(fd)
    requires |s.pool.queue| <= s.pool.maxRequests
    ensures Run(s, Statements(MAIN)) == s.(main := InWait,
      pool := s.pool.(queue := s.pool.queue + [fd], sem := s.pool.sem + 1, accepted := s.pool.accepted + [fd],
                      holder := None, phase := s.pool.phase[MAIN := ThreadPool.Idle]))
  {
    hide Run, Next;
    var g := GoOn(MAIN);
    var two := [g] + ([g] + []);
    assert Statements(MAIN) == two + two;
    RunAppend(s, two, two);
    TwoStatements(s, MAIN);
    PushRun(s, fd);
    var p := s.(pool := s.pool.(queue := s.pool.queue + [fd], accepted := s.pool.accepted + [fd],
                                phase := s.pool.phase[MAIN := ThreadPool.AppendPushed]));
    TwoStatements(p, MAIN);
    PostRun(p);
    assert p.pool.phase[MAIN := ThreadPool.Idle] == s.pool.phase[MAIN := ThreadPool.Idle];
  }

  lemma QueueRun(s: Server, fd: Fd)
    requires Quiet(s) && fd !in s.open
    ensures Run(s, QueueActions(fd)) == Queued(s, fd)
  {
    hide Run, Statements;
    var rest := Statements(MAIN);
    RunFirst(s, Accept(fd), [Register] + ([Deliver(fd)] + ([BeginAppend] + rest)));
    var s1 := Next(s, Accept(fd));
    RunFirst(s1, Register, [Deliver(fd)] + ([BeginAppend] + rest));
    var s2 := Next(s1, Register);
    RunFirst(s2, Deliver(fd), [BeginAppend] + rest);
    var s3 := Next(s2, Deliver(fd));
    RunFirst(s3, BeginAppend, rest);
    var s4 := Next(s3, BeginAppend);
    AppendRun(s4, fd);
    assert s4.armed == s.armed - {fd};
    assert s4.pool.phase[MAIN := ThreadPool.Idle] == s.pool.phase;
  }

  /** wait and lock */
  lemma EnterRun(s: Server, w: Tid)
    requires w in s.pool.phase && s.pool.phase[w].RunIdle? && w != MAIN && s.pool.holder == None && s.pool.sem > 0
    ensures Next(Next(s, GoOn(w)), GoOn(w)) ==
      s.(pool := s.pool.(sem := s.pool.sem - 1, phase := s.pool.phase[w := ThreadPool.RunLocked], holder := Some(w)))
  {
    assert s.pool.phase[w := ThreadPool.RunGranted][w := ThreadPool.RunLocked] ==
      s.pool.phase[w := ThreadPool.RunLocked];
  }

  /** pop_front and unlock */
  lemma LeaveRun(s: Server, w: Tid)
    requires w in s.pool.phase && s.pool.phase[w].RunLocked? && w != MAIN && s.pool.queue != []
    ensures Next(Next(s, GoOn(w)), GoOn(w)) ==
      s.(pool := s.pool.(queue := s.pool.queue[1..],
        phase := s.pool.phase[w := ThreadPool.RunServing(s.pool.queue[0])], holder := None,
        taken := s.pool.taken + [s.pool.queue[0]]))
  {
    var fd := s.pool.queue[0];
    assert s.pool.phase[w := ThreadPool.RunPopped(fd)][w := ThreadPool.RunServing(fd)] ==
      s.pool.phase[w := ThreadPool.RunServing(fd)];
  }

  lemma TakeRun(s: Server, w: Tid)
    requires w in s.pool.phase && s.pool.phase[w].RunIdle? && w != MAIN && s.pool.holder == None
    requires s.pool.sem > 0 && s.pool.queue != []
    ensures Run(s, Statements(w)) ==
      s.(pool := s.pool.(queue := s.pool.queue[1..], sem := s.pool.sem - 1,
         phase := s.pool.phase[w := ThreadPool.RunServing(s.pool.queue[0])], taken := s.pool.taken + [s.pool.queue[0]]))
  {
    hide Run, Next;
    var g := GoOn(w);
    var two := [g] + ([g] + []);
    assert Statements(w) == two + two;
    RunAppend(s, two, two);
    TwoStatements(s, w);
    EnterRun(s, w);
    var l := s.(pool := s.pool.(sem := s.pool.sem - 1, phase := s.pool.phase[w := ThreadPool.RunLocked],
      holder := Some(w)));
    TwoStatements(l, w);
    LeaveRun(l, w);
    assert l.pool.phase[w := ThreadPool.RunServing(s.pool.queue[0])] ==
      s.pool.phase[w := ThreadPool.RunServing(s.pool.queue[0])];
  }

  /** From every start a queued connection can expire, and the next accept of its descriptor gives it two places. */
  lemma ExpiryInFlight(s: Server, fd: Fd)
    requires Start(s) && fd !in s.open
    ensures var expired := Run(s, QueueActions(fd) + [Expire(fd)]);
      var accepted := Run(s, QueueActions(fd) + [Expire(fd), Accept(fd)]);
      && OnePlace(expired) && !Exclusive(expired)
      && At(accepted, fd, WithMain) && At(accepted, fd, InQueue(0)) && !OnePlace(accepted)
  {
    hide Run, QueueActions, Next, Exclusive, OnePlace;
    QueueRun(s, fd);
    RunAppend(s, QueueActions(fd), [Expire(fd)]);
    RunAppend(s, QueueActions(fd), [Expire(fd), Accept(fd)]);
    var r := Queued(s, fd);
    assert [Expire(fd), Accept(fd)] == [Expire(fd)] + ([Accept(fd)] + []) && [Expire(fd)] + [] == [Expire(fd)];
    RunFirst(r, Expire(fd), []);
    RunFirst(r, Expire(fd), [Accept(fd)] + []);
    var e := Next(r, Expire(fd));
    RunFirst(e, Register, []);
    RunFirst(e, Accept(fd), []);
    RunFirst(Next(e, Accept(fd)), Register, []);
    QueuedExpires(r, fd);
  }

  lemma QueuedExpires(s: Server, fd: Fd)
    requires s.main == InWait && fd in s.open && s.pool.queue == [fd] && s.armed == {}
    requires forall t | t in s.pool.phase :: s.pool.phase[t].Idle? || s.pool.phase[t].RunIdle?
    ensures var e := Next(s, Expire(fd));
      var a := Next(e, Accept(fd));
      OnePlace(e) && !Exclusive(e) && At(a, fd, WithMain) && At(a, fd, InQueue(0)) && !OnePlace(a)
  {
    var e := Next(s, Expire(fd));
    assert At(e, fd, InQueue(0)) && !ClosedAt(e, InQueue(0));
    assert forall g, p | At(e, g, p) :: p == InQueue(0);
    var a := Next(e, Accept(fd));
    assert At(a, fd, WithMain) && At(a, fd, InQueue(0));
  }

  /** A worker takes the connection, its reply fails, and it is stopped before the last modfd. */
  function FailedReply(fd: Fd, w: Tid): seq<Action> {
    QueueActions(fd) + (Statements(w) + [CloseFd(w), ResetFd(w)])
  }

  function Failed(s: Server, fd: Fd, w: Tid): Server {
    s.(sock := s.sock - {fd}, armed := s.armed - {fd}, open := s.open - {fd}, reset := s.reset + {w},
       pool := s.pool.(phase := s.pool.phase[w := ThreadPool.RunServing(fd)], accepted := s.pool.accepted + [fd],
                       taken := s.pool.taken + [fd]))
  }

  lemma FailedRun(s: Server, fd: Fd, w: Tid)
    requires Start(s) && fd !in s.open && w in s.pool.phase && w != MAIN
    ensures Run(s, FailedReply(fd, w)) == Failed(s, fd, w)
  {
    hide Run, QueueActions, Statements;
    var end := [CloseFd(w), ResetFd(w)];
    RunAppend(s, QueueActions(fd), Statements(w) + end);
    QueueRun(s, fd);
    var q := Queued(s, fd);
    RunAppend(q, Statements(w), end);
    TakeRun(q, w);
    var t := Run(q, Statements(w));
    assert end == [CloseFd(w)] + [ResetFd(w)] && [ResetFd(w)] == [ResetFd(w)] + [];
    RunFirst(t, CloseFd(w), [ResetFd(w)]);
    var c := Next(t, CloseFd(w));
    RunFirst(c, ResetFd(w), []);
    var r := Next(c, ResetFd(w));
    RunFirst(r, Register, []);
    assert r.open == s.open - {fd} && r.sock == s.sock - {fd} && r.closed == s.closed;
    assert r.pool.queue == s.pool.queue;
  }

  /**
   Without any expiry: the descriptor that a failed reply has closed is accepted again and queued, and then
   the worker's last modfd arms it. epoll reports a connection that is in the work queue.
  */
  lemma ReusedDescriptor(s: Server, fd: Fd, w: Tid)
    requires Start(s) && fd !in s.open && w in s.pool.phase && w != MAIN
    ensures var r := Run(s, FailedReply(fd, w) + (QueueActions(fd) + [LastModfd(w)]));
      Act(r, Deliver(fd)).Some? && fd in r.pool.queue && !OnePlace(r)
  {
    hide Run, QueueActions, FailedReply;
    FailedRun(s, fd, w);
    RunAppend(s, FailedReply(fd, w), QueueActions(fd) + [LastModfd(w)]);
    var f := Failed(s, fd, w);
    RunAppend(f, QueueActions(fd), [LastModfd(w)]);
    QueueRun(f, fd);
    var q := Queued(f, fd);
    assert [LastModfd(w)] == [LastModfd(w)] + [];
    RunFirst(q, LastModfd(w), []);
    var r := Next(q, LastModfd(w));
    RunFirst(r, Register, []);
    assert r.pool.queue == [fd] && fd in r.armed;
    assert At(r, fd, InEpoll) && At(r, fd, InQueue(0));
  }
}
