/** Connections that have one owner and are also open: what a timer in flight and a reused descriptor break. */
module OpenOwners {
  import opened Wrappers
  import ThreadPool
  import opened Counting
  import opened Ownership
  import opened OnePlaceOnly

  /** The worker at this place has closed the descriptor itself. */
  predicate ClosedAt(s: Server, p: Place) {
    p.WithWorker? && p.t in Closers(s)
  }

  /** Every connection is in at most one place, and open there unless the worker that has it has closed it. */
  ghost predicate Exclusive(s: Server) {
    OnePlace(s) && forall fd, p | At(s, fd, p) :: fd in s.open || ClosedAt(s, p)
  }

  /** m_sockfd is the descriptor wherever the object is in use, and -1 once its worker has reset it. */
  ghost predicate SocketsSet(s: Server) {
    forall fd, p | At(s, fd, p) && s.main != Admitting(fd) ::
      fd in s.sock <==> !(p.WithWorker? && p.t in s.reset)
  }

  /** Whoever is inside close_conn serves a connection whose descriptor is not open any more. */
  ghost predicate ClosersClosed(s: Server) {
    && s.closed !! s.reset
    && forall t | t in Closers(s) :: Serving(s, t) && s.pool.phase[t].request !in s.open
  }

  ghost predicate Inv(s: Server) {
    Exclusive(s) && MainAppends(s) && SocketsSet(s) && ClosersClosed(s)
  }

  lemma StartInv(s: Server)
    requires Start(s)
    ensures Inv(s)
  {
  }

  /**
   The two things that can go wrong: a timer expires for a connection that is in flight, or accept returns
   a descriptor whose object a worker has not left yet.
  */
  ghost predicate Careful(s: Server, a: Action) {
    match a
    case Expire(fd) => forall p | At(s, fd, p) :: p == InEpoll
    case Accept(fd) => forall t :: !At(s, fd, WithWorker(t))
    case _ => true
  }

  /** The other connections are where they were, and their places are as they were. */
  ghost predicate OthersStay(s: Server, t: Server, fd0: Fd) {
    && (forall fd, u | At(t, fd, WithWorker(u)) && fd != fd0 ::
          (u in s.reset <==> u in t.reset) && (u in s.closed <==> u in t.closed))
    && s.open - {fd0} == t.open - {fd0} && s.sock - {fd0} == t.sock - {fd0}
    && (s.main == t.main || ((s.main.Admitting? ==> s.main.fd == fd0) && (t.main.Admitting? ==> t.main.fd == fd0)))
  }

  /** At `to` the connection `fd0` is as it should be. */
  ghost predicate RightAt(t: Server, fd0: Fd, to: Option<Place>) {
    to.Some? ==>
      && (fd0 in t.open || ClosedAt(t, to.value))
      && (t.main != Admitting(fd0) ==> (fd0 in t.sock <==> !(to.value.WithWorker? && to.value.t in t.reset)))
  }

  lemma MoveKeepsExclusive(s: Server, t: Server, fd0: Fd, from: Option<Place>, to: Option<Place>, popped: bool)
    requires Exclusive(s) && SocketsSet(s) && MovesTo(s, t, fd0, from, to, popped)
    requires OthersStay(s, t, fd0) && RightAt(t, fd0, to)
    ensures Exclusive(t) && SocketsSet(t)
  {
    hide At, OnePlace;
    MoveKeepsOnePlace(s, t, fd0, from, to, popped);
    forall fd, p | At(t, fd, p)
      ensures fd in t.open || ClosedAt(t, p)
      ensures t.main != Admitting(fd) ==> (fd in t.sock <==> !(p.WithWorker? && p.t in t.reset))
    {
      if fd != fd0 {
        assert At(s, fd, Back(p, popped));
        assert fd in s.open <==> fd in s.open - {fd0};
        assert fd in t.open <==> fd in t.open - {fd0};
        assert fd in s.sock <==> fd in s.sock - {fd0};
        assert fd in t.sock <==> fd in t.sock - {fd0};
      }
    }
  }

  lemma AcceptActs(s: Server, fd: Fd)
    requires Inv(s) && Act(s, Accept(fd)).Some? && Careful(s, Accept(fd))
    ensures Inv(Act(s, Accept(fd)).value)
  {
    var t := Act(s, Accept(fd)).value;
    assert forall p :: !At(s, fd, p) || ClosedAt(s, p);
    assert forall p :: ClosedAt(s, p) ==> p.WithWorker? && !At(s, fd, p);
    assert forall u | u in Closers(s) :: At(s, s.pool.phase[u].request, WithWorker(u));
    MoveKeepsExclusive(s, t, fd, None, Some(WithMain), false);
  }

  lemma MainActs(s: Server, a: Action)
    requires Inv(s) && Act(s, a).Some? && (a.Register? || a.Deliver? || a.Close? || a.Rearm?)
    ensures Inv(Act(s, a).value)
  {
    var t := Act(s, a).value;
    var fd := if a.Deliver? then a.fd else s.main.fd;
    var from := if a.Deliver? then InEpoll else WithMain;
    assert At(s, fd, from);
    MoveKeepsExclusive(s, t, fd, Some(from), if a.Deliver? then Some(WithMain) else if a.Close? then None
      else Some(InEpoll), false);
  }

  lemma ExpireActs(s: Server, fd: Fd)
    requires Inv(s) && Act(s, Expire(fd)).Some? && Careful(s, Expire(fd))
    ensures Inv(Act(s, Expire(fd)).value)
  {
    var t := Act(s, Expire(fd)).value;
    assert fd in s.armed ==> At(s, fd, InEpoll);
    MoveKeepsExclusive(s, t, fd, if fd in s.armed then Some(InEpoll) else None, None, false);
  }

  lemma AppendBegins(s: Server)
    requires Inv(s) && Act(s, BeginAppend).Some?
    ensures Inv(Act(s, BeginAppend).value)
  {
    var t := Act(s, BeginAppend).value;
    var fd := s.main.fd;
    assert At(s, fd, WithMain);
    MoveKeepsExclusive(s, t, fd, Some(WithMain), Some(WithMain), false);
  }

  /** The statements of append() */
  lemma AppendActs(s: Server)
    requires Inv(s) && Act(s, GoOn(MAIN)).Some?
    ensures Inv(Act(s, GoOn(MAIN)).value)
  {
    var t := Act(s, GoOn(MAIN)).value;
    var fd := s.main.fd;
    match s.pool.phase[MAIN]
    case AppendEntered(_) =>
      assert At(s, fd, WithMain);
      MoveKeepsExclusive(s, t, fd, Some(WithMain), if t.pool.phase[MAIN].AppendRefused? then None else Some(WithMain),
        false);
    case AppendAdmitted(_) =>
      assert At(s, fd, WithMain);
      MoveKeepsExclusive(s, t, fd, Some(WithMain), Some(InQueue(|s.pool.queue|)), false);
    case _ =>
      NothingMoves(s, t);
  }

  /** An action that moves nothing */
  lemma NothingMoves(s: Server, t: Server)
    requires Exclusive(s) && SocketsSet(s)
    requires t.open == s.open && t.sock == s.sock && t.closed == s.closed && t.reset == s.reset
    requires forall fd, p | At(t, fd, p) :: At(s, fd, p) && (s.main == Admitting(fd) ==> t.main == Admitting(fd))
    ensures Exclusive(t) && SocketsSet(t)
  {
    hide At;
  }

  /** The statements of run() outside process() */
  lemma WorkerGoesOn(s: Server, w: Tid)
    requires Inv(s) && w != MAIN && Act(s, GoOn(w)).Some?
    ensures Inv(Act(s, GoOn(w)).value)
  {
    var t := Act(s, GoOn(w)).value;
    if s.pool.phase[w].RunLocked? && s.pool.queue != [] {
      var fd := s.pool.queue[0];
      assert At(s, fd, InQueue(0));
      MoveKeepsExclusive(s, t, fd, Some(InQueue(0)), Some(WithWorker(w)), true);
    } else {
      NothingMoves(s, t);
    }
  }

  /** A worker inside process() has its connection to itself. */
  lemma WorkerHasIt(s: Server, w: Tid)
    requires Inv(s) && Serving(s, w)
    ensures At(s, s.pool.phase[w].request, WithWorker(w)) && s.main != Admitting(s.pool.phase[w].request)
  {
    var fd := s.pool.phase[w].request;
    assert At(s, fd, WithWorker(w));
    assert s.main == Admitting(fd) ==> At(s, fd, WithMain);
  }

  /** The steps inside close_conn */
  lemma WorkerCloses(s: Server, a: Action)
    requires Inv(s) && Act(s, a).Some? && (a.CloseFd? || a.ResetFd?)
    ensures Inv(Act(s, a).value)
  {
    var t := Act(s, a).value;
    WorkerHasIt(s, a.t);
    var here := Some(WithWorker(a.t));
    MoveKeepsExclusive(s, t, s.pool.phase[a.t].request, here, here, false);
  }

  /** The modfd that ends process() */
  lemma WorkerFinishes(s: Server, a: Action)
    requires Inv(s) && Act(s, a).Some? && (a.Finish? || a.LastModfd?)
    ensures Inv(Act(s, a).value)
  {
    var t := Act(s, a).value;
    var fd := s.pool.phase[a.t].request;
    WorkerHasIt(s, a.t);
    MoveKeepsExclusive(s, t, fd, Some(WithWorker(a.t)), if a.Finish? then Some(InEpoll) else None, false);
  }

  lemma ActKeepsInv(s: Server, a: Action)
    requires Inv(s) && Act(s, a).Some? && Careful(s, a)
    ensures Inv(Act(s, a).value)
  {
    hide Inv, Careful, Act;
    match a
    case Accept(fd) => AcceptActs(s, fd);
    case Expire(fd) => ExpireActs(s, fd);
    case BeginAppend => AppendBegins(s);
    case GoOn(t) => if t == MAIN { AppendActs(s); } else { WorkerGoesOn(s, t); }
    case Register => MainActs(s, a);
    case Deliver(_) => MainActs(s, a);
    case Close => MainActs(s, a);
    case Rearm => MainActs(s, a);
    case Finish(_) => WorkerFinishes(s, a);
    case LastModfd(_) => WorkerFinishes(s, a);
    case _ => WorkerCloses(s, a);
  }

  lemma CarelessBreaks(s: Server, a: Action)
    requires Inv(s) && Act(s, a).Some? && !Careful(s, a)
    ensures !Exclusive(Act(s, a).value)
  {
    var t := Act(s, a).value;
    if a.Expire? {
      var p :| At(s, a.fd, p) && p != InEpoll;
      assert At(t, a.fd, p) && a.fd !in t.open && !ClosedAt(t, p);
    } else {
      var w :| At(s, a.fd, WithWorker(w));
      assert At(t, a.fd, WithWorker(w)) && At(t, a.fd, WithMain);
    }
  }

  /** No timer of the run expires in flight, and no accept of the run returns a descriptor still being processed. */
  ghost predicate CarefulRun(s: Server, actions: seq<Action>)
    decreases |actions|
  {
    actions == [] ||
    ((Act(s, actions[0]).Some? ==> Careful(s, actions[0])) && CarefulRun(Next(s, actions[0]), actions[1..]))
  }

  lemma {:induction false} RunKeepsInv(s: Server, actions: seq<Action>)
    requires Inv(s) && CarefulRun(s, actions)
    ensures Inv(Run(s, actions))
    decreases |actions|
  {
    hide Inv, Act, Careful;
    if actions != [] {
      if Act(s, actions[0]).Some? {
        ActKeepsInv(s, actions[0]);
      }
      RunKeepsInv(Next(s, actions[0]), actions[1..]);
    }
  }

  lemma InvIsExclusive(s: Server)
    requires Inv(s)
    ensures Exclusive(s)
  {
  }

  lemma {:induction false} OneOwnerFrom(s: Server, actions: seq<Action>)
    requires Inv(s)
    ensures Always(s, actions, Exclusive) <==> CarefulRun(s, actions)
    decreases |actions|
  {
    hide Inv, Act, Careful, Exclusive, Always;
    InvIsExclusive(s);
    AlwaysFirst(s, actions, Exclusive);
    if actions != [] {
      var next := Next(s, actions[0]);
      if Act(s, actions[0]).Some? && !Careful(s, actions[0]) {
        CarelessBreaks(s, actions[0]);
        if Always(next, actions[1..], Exclusive) {
          AlwaysNow(next, actions[1..], Exclusive);
        }
      } else {
        if Act(s, actions[0]).Some? {
          ActKeepsInv(s, actions[0]);
        }
        OneOwnerFrom(next, actions[1..]);
      }
    }
  }

  /**
   In every interleaving each connection is at every moment in at most one place, and open there unless its
   worker has closed it, if and only if no timer expires in flight and no accept returns a descriptor whose
   object a worker still processes.
  */
  lemma OneOwnerExactly(s: Server, actions: seq<Action>)
    requires Start(s)
    ensures Always(s, actions, Exclusive) <==> CarefulRun(s, actions)
  {
    StartInv(s);
    OneOwnerFrom(s, actions);
  }

  /** No connection is queued twice, and epoll reports none that is queued or with a worker. */
  ghost predicate NoneTwice(s: Server) {
    && (forall i, j | 0 <= i < j < |s.pool.queue| :: s.pool.queue[i] != s.pool.queue[j])
    && (forall fd | Act(s, Deliver(fd)).Some? ::
          fd !in s.pool.queue && forall t | t in s.pool.phase :: !At(s, fd, WithWorker(t)))
  }

  lemma ExclusiveMeans(s: Server)
    requires Exclusive(s)
    ensures NoneTwice(s)
  {
    forall i, j | 0 <= i < j < |s.pool.queue| ensures s.pool.queue[i] != s.pool.queue[j] {
      assert At(s, s.pool.queue[i], InQueue(i)) && At(s, s.pool.queue[j], InQueue(j));
    }
    forall fd | Act(s, Deliver(fd)).Some?
      ensures fd !in s.pool.queue && forall t | t in s.pool.phase :: !At(s, fd, WithWorker(t))
    {
      assert At(s, fd, InEpoll);
      assert forall i | 0 <= i < |s.pool.queue| :: At(s, s.pool.queue[i], InQueue(i));
    }
  }

  /** In every careful run: one owner, nothing queued twice, and the modfd behind close_conn arms nothing. */
  lemma OneOwner(s: Server, actions: seq<Action>, t: Tid)
    requires Start(s) && CarefulRun(s, actions)
    ensures var r := Run(s, actions);
      && Exclusive(r) && NoneTwice(r)
      && (Act(r, LastModfd(t)).Some? ==> Act(r, LastModfd(t)).value.armed == r.armed)
  {
    StartInv(s);
    RunKeepsInv(s, actions);
    var r := Run(s, actions);
    ExclusiveMeans(r);
    if Act(r, LastModfd(t)).Some? {
      assert At(r, r.pool.phase[t].request, WithWorker(t));
    }
  }
}
