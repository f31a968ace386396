/** No connection is lost: while it is open it has a place, and from every place there is a next step. */
module NoneLost {
  import opened Wrappers
  import ThreadPool
  import opened Counting
  import opened Ownership
  import opened OnePlaceOnly
  import opened OpenOwners

  /** The descriptors that accepts have returned and that no append has refused since */
  function Kept(s: Server, a: Action, mine: set<Fd>): set<Fd> {
    var t := Next(s, a);
    if Act(s, a).None? then mine
    else if a.Accept? then mine + {a.fd}
    else if s.main.Appending? && MAIN in t.pool.phase && t.pool.phase[MAIN].AppendRefused? then mine - {s.main.fd}
    else mine
  }

  function KeptAfter(s: Server, actions: seq<Action>, mine: set<Fd>): set<Fd>
    decreases |actions|
  {
    if actions == [] then mine else KeptAfter(Next(s, actions[0]), actions[1..], Kept(s, actions[0], mine))
  }

  /** Each of them that is open has a place. */
  ghost predicate Placed(s: Server, mine: set<Fd>) {
    forall fd | fd in mine && fd in s.open :: exists p :: At(s, fd, p)
  }

  lemma MainKeeps(s: Server, a: Action, mine: set<Fd>)
    requires Inv(s) && Placed(s, mine) && Act(s, a).Some?
    requires a.Accept? || a.Register? || a.Deliver? || a.Close? || a.Rearm? || a.Expire?
    ensures Placed(Act(s, a).value, Kept(s, a, mine))
  {
    var t := Act(s, a).value;
    forall fd | fd in Kept(s, a, mine) && fd in t.open ensures exists p :: At(t, fd, p) {
      if (a.Accept? || a.Deliver?) && fd == a.fd {
        assert At(t, fd, WithMain);
      } else {
        var p :| At(s, fd, p);
        assert At(t, fd, if p == WithMain then InEpoll else p);
      }
    }
  }

  lemma AppendKeeps(s: Server, a: Action, mine: set<Fd>)
    requires Inv(s) && Placed(s, mine) && Act(s, a).Some? && a in {BeginAppend, GoOn(MAIN)}
    ensures Placed(Act(s, a).value, Kept(s, a, mine))
  {
    var t := Act(s, a).value;
    forall fd | fd in Kept(s, a, mine) && fd in t.open ensures exists p :: At(t, fd, p) {
      var p :| At(s, fd, p);
      if a.GoOn? && s.pool.phase[MAIN].AppendAdmitted? && p == WithMain {
        assert At(t, fd, InQueue(|s.pool.queue|));
      } else {
        assert At(t, fd, p);
      }
    }
  }

  lemma WorkerKeeps(s: Server, w: Tid, mine: set<Fd>)
    requires Inv(s) && Placed(s, mine) && w != MAIN && Act(s, GoOn(w)).Some?
    ensures Placed(Act(s, GoOn(w)).value, Kept(s, GoOn(w), mine))
  {
    var t := Act(s, GoOn(w)).value;
    forall fd | fd in Kept(s, GoOn(w), mine) && fd in t.open ensures exists p :: At(t, fd, p) {
      var p :| At(s, fd, p);
      if s.pool.phase[w].RunLocked? && s.pool.queue != [] && p.InQueue? {
        assert At(t, fd, if p.index == 0 then WithWorker(w) else InQueue(p.index - 1));
      } else {
        assert At(t, fd, p);
      }
    }
  }

  lemma ProcessKeeps(s: Server, a: Action, mine: set<Fd>)
    requires Inv(s) && Placed(s, mine) && Act(s, a).Some?
    requires a.Finish? || a.CloseFd? || a.ResetFd? || a.LastModfd?
    ensures Placed(Act(s, a).value, Kept(s, a, mine))
  {
    var t := Act(s, a).value;
    WorkerHasIt(s, a.t);
    var served := s.pool.phase[a.t].request;
    forall fd | fd in Kept(s, a, mine) && fd in t.open ensures exists p :: At(t, fd, p) {
      var p :| At(s, fd, p);
      if a.Finish? && fd == served {
        assert At(t, fd, InEpoll);
      } else {
        assert At(t, fd, p);
      }
    }
  }

  lemma ActKeepsPlaced(s: Server, a: Action, mine: set<Fd>)
    requires Inv(s) && Placed(s, mine) && Act(s, a).Some?
    ensures Placed(Act(s, a).value, Kept(s, a, mine))
  {
    hide Inv, Placed, Act, Kept;
    match a
    case GoOn(t) => if t == MAIN { AppendKeeps(s, a, mine); } else { WorkerKeeps(s, t, mine); }
    case BeginAppend => AppendKeeps(s, a, mine);
    case Finish(_) => ProcessKeeps(s, a, mine);
    case CloseFd(_) => ProcessKeeps(s, a, mine);
    case ResetFd(_) => ProcessKeeps(s, a, mine);
    case LastModfd(_) => ProcessKeeps(s, a, mine);
    case Accept(_) => MainKeeps(s, a, mine);
    case Register => MainKeeps(s, a, mine);
    case Deliver(_) => MainKeeps(s, a, mine);
    case Close => MainKeeps(s, a, mine);
    case Rearm => MainKeeps(s, a, mine);
    case Expire(_) => MainKeeps(s, a, mine);
  }

  lemma {:induction false} RunKeepsPlaced(s: Server, actions: seq<Action>, mine: set<Fd>)
    requires Inv(s) && Placed(s, mine) && CarefulRun(s, actions)
    ensures Inv(Run(s, actions)) && Placed(Run(s, actions), KeptAfter(s, actions, mine))
    decreases |actions|
  {
    hide Inv, Placed, Act, Careful, Kept;
    if actions != [] {
      if Act(s, actions[0]).Some? {
        ActKeepsInv(s, actions[0]);
        ActKeepsPlaced(s, actions[0], mine);
      } else {
        NothingKept(s, actions[0], mine);
      }
      RunKeepsPlaced(Next(s, actions[0]), actions[1..], Kept(s, actions[0], mine));
    }
  }

  lemma NothingKept(s: Server, a: Action, mine: set<Fd>)
    requires Act(s, a).None?
    ensures Kept(s, a, mine) == mine
  {
  }

  /**
   In every careful run a connection that an accept has opened, that is still open, and that no append has
   refused since is in exactly one place.
  */
  lemma NoneIsLost(s: Server, actions: seq<Action>, fd: Fd)
    requires Start(s) && CarefulRun(s, actions)
    ensures var r := Run(s, actions);
      fd in KeptAfter(s, actions, {}) && fd in r.open ==>
        exists p :: At(r, fd, p) && forall q :: At(r, fd, q) ==> q == p
  {
    StartInv(s);
    RunKeepsPlaced(s, actions, {});
    var r := Run(s, actions);
    if fd in KeptAfter(s, actions, {}) && fd in r.open {
      var p :| At(r, fd, p);
      assert forall q :: At(r, fd, q) ==> q == p;
    }
  }

  /** The actions that take a connection on from its place; a thread that waits for the lock waits for its holder. */
  predicate GoesOn(s: Server, fd: Fd, p: Place) {
    match p
    case InEpoll => s.main == InWait ==> Act(s, Deliver(fd)).Some? && Act(s, Deliver(fd)).value.main == Handling(fd)
    case WithMain =>
      (match s.main
       case Admitting(_) => Act(s, Register).Some? && fd in Act(s, Register).value.armed
       case Handling(_) =>
         && Act(s, Close).Some? && fd !in Act(s, Close).value.open
         && Act(s, Rearm).Some? && fd in Act(s, Rearm).value.armed
         && (s.pool.holder == None ==> Act(s, BeginAppend).Some?)
       case Appending(_) => Act(s, GoOn(MAIN)).Some?
       case InWait => false)
    case InQueue(_) => true
    case WithWorker(t) =>
      t in s.pool.phase &&
      if s.pool.phase[t].RunPopped? then Act(s, GoOn(t)).Some? && Serving(Act(s, GoOn(t)).value, t)
      else if t in s.closed then Act(s, ResetFd(t)).Some? && t in Act(s, ResetFd(t)).value.reset
      else if t in s.reset then Act(s, LastModfd(t)).Some? && Act(s, LastModfd(t)).value.pool.phase[t].RunIdle?
      else
        && Act(s, Finish(t)).Some? && fd in Act(s, Finish(t)).value.armed
        && Act(s, Finish(t)).value.pool.phase[t].RunIdle?
        && Act(s, CloseFd(t)).Some? && fd !in Act(s, CloseFd(t)).value.open
  }

  /** From every place outside the queue the next step is possible, and leads where it should. */
  lemma EveryPlaceGoesOn(s: Server, fd: Fd, p: Place)
    requires Inv(s) && At(s, fd, p)
    ensures GoesOn(s, fd, p)
  {
    if p.WithWorker? && Serving(s, p.t) {
      WorkerHasIt(s, p.t);
      ServingEnds(s, p.t);
    }
  }

  lemma ServingEnds(s: Server, t: Tid)
    requires Serving(s, t)
    ensures ThreadPool.Step(s.pool, t, ThreadPool.Continue).Some?
    ensures ThreadPool.Step(s.pool, t, ThreadPool.Continue).value.phase == s.pool.phase[t := ThreadPool.RunIdle]
  {
  }

  // ----- what holds in every run, careful or not -----

  /** Only a descriptor that is open and registered is armed. */
  ghost predicate OpenArmed(s: Server) {
    s.armed <= s.open && (s.main.Admitting? ==> s.main.fd !in s.armed)
  }

  lemma ActKeepsArmed(s: Server, a: Action)
    requires OpenArmed(s) && Act(s, a).Some?
    ensures OpenArmed(Act(s, a).value)
  {
  }

  lemma {:induction false} RunKeepsArmed(s: Server, actions: seq<Action>)
    requires OpenArmed(s)
    ensures OpenArmed(Run(s, actions))
    decreases |actions|
  {
    hide Act, OpenArmed;
    if actions != [] {
      if Act(s, actions[0]).Some? {
        ActKeepsArmed(s, actions[0]);
      }
      RunKeepsArmed(Next(s, actions[0]), actions[1..]);
    }
  }

  /** In every run whatsoever epoll reports only open descriptors that addfd has registered. */
  lemma ReportedIsOpen(s: Server, actions: seq<Action>, fd: Fd)
    requires Start(s)
    ensures Act(Run(s, actions), Deliver(fd)).Some? ==> fd in Run(s, actions).open
  {
    RunKeepsArmed(s, actions);
  }

  /** close_conn on an object whose m_sockfd is already -1 closes nothing, and the modfd behind it arms nothing. */
  lemma ResetObjectStays(s: Server, t: Tid)
    requires Serving(s, t) && t !in Closers(s) && s.pool.phase[t].request !in s.sock
    ensures var c := Act(s, CloseFd(t));
      && c.Some? && c.value.open == s.open && c.value.armed == s.armed
      && Act(c.value, LastModfd(t)).Some? && Act(c.value, LastModfd(t)).value.armed == s.armed
  {
    ServingEnds(s, t);
  }
}
