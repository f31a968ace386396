/** Exactly when every connection of the server is in at most one place, over all runs. */
module OnePlaceOnly {
  import opened Wrappers
  import ThreadPool
  import opened Counting
  import opened Ownership

  /** An accept returns only a descriptor that is in no place any more. */
  ghost predicate NoReuse(s: Server, a: Action) {
    a.Accept? ==> forall p :: !At(s, a.fd, p)
  }

  ghost predicate NoReuseRun(s: Server, actions: seq<Action>)
    decreases |actions|
  {
    actions == [] ||
    ((Act(s, actions[0]).Some? ==> NoReuse(s, actions[0])) && NoReuseRun(Next(s, actions[0]), actions[1..]))
  }

  /** Where what is now at `p` was before the action: a pop shifts the queue. */
  function Back(p: Place, popped: bool): Place {
    if popped && p.InQueue? then InQueue(p.index + 1) else p
  }

  /** `fd0` has left `from`, if it was anywhere, for `to`; the other connections are where they were. */
  ghost predicate MovesTo(s: Server, t: Server, fd0: Fd, from: Option<Place>, to: Option<Place>, popped: bool) {
    && (if from == None then forall p :: !At(s, fd0, p) else At(s, fd0, from.value))
    && (forall p | At(t, fd0, p) ::
          to == Some(p) || (At(s, fd0, Back(p, popped)) && from != Some(Back(p, popped))))
    && (forall fd, p | At(t, fd, p) && fd != fd0 :: At(s, fd, Back(p, popped)))
  }

  lemma MoveKeepsOnePlace(s: Server, t: Server, fd0: Fd, from: Option<Place>, to: Option<Place>, popped: bool)
    requires OnePlace(s) && MovesTo(s, t, fd0, from, to, popped)
    ensures OnePlace(t) && forall p | At(t, fd0, p) :: to == Some(p)
  {
    hide At;
    assert forall p | At(t, fd0, p) :: to == Some(p);
    forall fd, p, q | At(t, fd, p) && At(t, fd, q) ensures p == q {
      if fd != fd0 {
        assert Back(p, popped) == Back(q, popped);
      }
    }
  }

  lemma FewerPlaces(s: Server, t: Server)
    requires OnePlace(s) && forall fd, p | At(t, fd, p) :: At(s, fd, p)
    ensures OnePlace(t)
  {
    hide At;
  }

  lemma MainMoves(s: Server, a: Action)
    requires OnePlace(s) && MainAppends(s) && Act(s, a).Some? && NoReuse(s, a)
    requires a.Accept? || a.Register? || a.Deliver? || a.Close? || a.Rearm?
    ensures OnePlace(Act(s, a).value) && MainAppends(Act(s, a).value)
  {
    var fd := if a.Accept? || a.Deliver? then a.fd else s.main.fd;
    var from := if a.Accept? then None else Some(if a.Deliver? then InEpoll else WithMain);
    var to := if a.Close? then None else Some(if a.Accept? || a.Deliver? then WithMain else InEpoll);
    MoveKeepsOnePlace(s, Act(s, a).value, fd, from, to, false);
  }

  lemma AppendMoves(s: Server, a: Action)
    requires OnePlace(s) && MainAppends(s) && Act(s, a).Some? && a in {BeginAppend, GoOn(MAIN)}
    ensures OnePlace(Act(s, a).value) && MainAppends(Act(s, a).value)
  {
    var t := Act(s, a).value;
    if a.GoOn? && s.pool.phase[MAIN].AppendAdmitted? {
      assert At(s, s.main.fd, WithMain);
      MoveKeepsOnePlace(s, t, s.main.fd, Some(WithMain), Some(InQueue(|s.pool.queue|)), false);
    } else {
      FewerPlaces(s, t);
    }
  }

  lemma WorkerMoves(s: Server, w: Tid)
    requires OnePlace(s) && MainAppends(s) && Act(s, GoOn(w)).Some? && w != MAIN
    ensures OnePlace(Act(s, GoOn(w)).value) && MainAppends(Act(s, GoOn(w)).value)
  {
    var t := Act(s, GoOn(w)).value;
    if s.pool.phase[w].RunLocked? && s.pool.queue != [] {
      var fd := s.pool.queue[0];
      assert At(s, fd, InQueue(0));
      MoveKeepsOnePlace(s, t, fd, Some(InQueue(0)), Some(WithWorker(w)), true);
    } else {
      FewerPlaces(s, t);
    }
  }

  lemma ModfdMoves(s: Server, a: Action)
    requires OnePlace(s) && MainAppends(s) && Act(s, a).Some? && (a.Finish? || a.LastModfd?)
    ensures OnePlace(Act(s, a).value) && MainAppends(Act(s, a).value)
  {
    var fd := s.pool.phase[a.t].request;
    assert At(s, fd, WithWorker(a.t));
    MoveKeepsOnePlace(s, Act(s, a).value, fd, Some(WithWorker(a.t)), Some(InEpoll), false);
  }

  lemma ActKeepsOnePlace(s: Server, a: Action)
    requires OnePlace(s) && MainAppends(s) && Act(s, a).Some? && NoReuse(s, a)
    ensures OnePlace(Act(s, a).value) && MainAppends(Act(s, a).value)
  {
    hide OnePlace, MainAppends, NoReuse, Act;
    match a
    case GoOn(t) => if t == MAIN { AppendMoves(s, a); } else { WorkerMoves(s, t); }
    case BeginAppend => AppendMoves(s, a);
    case Finish(_) => ModfdMoves(s, a);
    case LastModfd(_) => ModfdMoves(s, a);
    case CloseFd(_) => CloseMoves(s, a);
    case ResetFd(_) => CloseMoves(s, a);
    case Expire(_) => CloseMoves(s, a);
    case Accept(_) => MainMoves(s, a);
    case Register => MainMoves(s, a);
    case Deliver(_) => MainMoves(s, a);
    case Close => MainMoves(s, a);
    case Rearm => MainMoves(s, a);
  }

  /** Closing a descriptor, in a worker or by a timer, moves no connection. */
  lemma CloseMoves(s: Server, a: Action)
    requires OnePlace(s) && MainAppends(s) && Act(s, a).Some? && (a.CloseFd? || a.ResetFd? || a.Expire?)
    ensures OnePlace(Act(s, a).value) && MainAppends(Act(s, a).value)
  {
    FewerPlaces(s, Act(s, a).value);
  }

  /** An accept of a descriptor that still has a place gives it a second one. */
  lemma ReuseBreaks(s: Server, a: Action)
    requires Act(s, a).Some? && !NoReuse(s, a)
    ensures !OnePlace(Act(s, a).value)
  {
    var t := Act(s, a).value;
    var p :| At(s, a.fd, p);
    assert At(t, a.fd, p) && At(t, a.fd, WithMain);
  }

  lemma {:induction false} OnePlaceFrom(s: Server, actions: seq<Action>)
    requires OnePlace(s) && MainAppends(s)
    ensures Always(s, actions, OnePlace) <==> NoReuseRun(s, actions)
    decreases |actions|
  {
    hide OnePlace, MainAppends, NoReuse, Act, Always;
    AlwaysFirst(s, actions, OnePlace);
    if actions != [] {
      var next := Next(s, actions[0]);
      if Act(s, actions[0]).Some? && !NoReuse(s, actions[0]) {
        ReuseBreaks(s, actions[0]);
        if Always(next, actions[1..], OnePlace) {
          AlwaysNow(next, actions[1..], OnePlace);
        }
      } else {
        if Act(s, actions[0]).Some? {
          ActKeepsOnePlace(s, actions[0]);
        }
        OnePlaceFrom(next, actions[1..]);
      }
    }
  }

  /**
   In every interleaving each connection is in at most one place at every moment if and only if no accept
   returns a descriptor that is still queued or with a worker.
  */
  lemma OnePlaceExactly(s: Server, actions: seq<Action>)
    requires Start(s)
    ensures Always(s, actions, OnePlace) <==> NoReuseRun(s, actions)
  {
    OnePlaceFrom(s, actions);
  }
}
