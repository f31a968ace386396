/**
 Who may touch a connection: one-shot epoll registration, the main loop, the work queue and the workers,
 composed with the thread pool. A delivered event disarms its descriptor, and modfd arms it again. A worker
 whose reply fails closes the descriptor, then resets m_sockfd, and only then reaches the modfd at the end of
 process(), which uses whatever m_sockfd holds by then.
*/
module Ownership {
  import opened Wrappers
  import opened ThreadPool
  import opened Counting

  type Fd = nat

  /** The main loop: waiting for events, setting up a new connection, handling an event, or inside append() */
  datatype MainPhase = InWait | Admitting(fd: Fd) | Handling(fd: Fd) | Appending(fd: Fd)

  /** The thread that runs the main loop */
  const MAIN: Tid := 0

  /**
   Open descriptors, descriptors armed in epoll, the objects of `users` whose m_sockfd is their index (the
   others hold -1), the main loop, the thread pool, and the workers inside close_conn: those that have closed
   the descriptor, and those that have also reset m_sockfd.
  */
  datatype Server = Server(
    open: set<Fd>,
    armed: set<Fd>,
    sock: set<Fd>,
    main: MainPhase,
    pool: Pool<Fd>,
    closed: set<Tid>,
    reset: set<Tid>)

  datatype Action =
    | Accept(fd: Fd)      // accept returns
    | Register            // init: m_sockfd is set, and addfd registers with EPOLLONESHOT
    | Deliver(fd: Fd)     // epoll_wait reports the descriptor
    | Close               // a hang-up, a failed read or a failed write: cb_func
    | Rearm               // write() ends in modfd
    | BeginAppend         // read_once has succeeded: append() takes the lock
    | GoOn(t: Tid)        // the next statement of append() or of a worker's run()
    | Finish(t: Tid)      // process() ends in modfd without having called close_conn
    | CloseFd(t: Tid)     // close_conn: the test of m_sockfd and removefd
    | ResetFd(t: Tid)     // close_conn: m_sockfd = -1
    | LastModfd(t: Tid)   // the modfd that follows close_conn ends process()
    | Expire(fd: Fd)      // tick() closes the connection of a timer

  /** modfd on the m_sockfd of object `fd`; epoll_ctl fails on -1 and on a descriptor that is not registered. */
  function Modfd(s: Server, fd: Fd): set<Fd> {
    if fd in s.sock && fd in s.open && s.main != Admitting(fd) then s.armed + {fd} else s.armed
  }

  predicate Serving(s: Server, t: Tid) {
    t in s.pool.phase && s.pool.phase[t].RunServing?
  }

  /** The workers that have begun to close their connection */
  function Closers(s: Server): set<Tid> {
    s.closed + s.reset
  }

  function Act(s: Server, a: Action): Option<Server> {
    match a
    case Accept(fd) =>
      if s.main == InWait && fd !in s.open then Some(s.(open := s.open + {fd}, main := Admitting(fd))) else None
    case Register =>
      if s.main.Admitting? then
        var fd := s.main.fd;
        Some(s.(sock := s.sock + {fd}, armed := if fd in s.open then s.armed + {fd} else s.armed, main := InWait))
      else None
    case Deliver(fd) =>
      if s.main == InWait && fd in s.armed then Some(s.(armed := s.armed - {fd}, main := Handling(fd))) else None
    case Close =>
      if s.main.Handling?
      then Some(s.(open := s.open - {s.main.fd}, armed := s.armed - {s.main.fd}, main := InWait)) else None
    case Rearm => if s.main.Handling? then Some(s.(armed := Modfd(s, s.main.fd), main := InWait)) else None
    case BeginAppend =>
      if s.main.Handling? && Step(s.pool, MAIN, Append(s.main.fd)).Some?
      then Some(s.(main := Appending(s.main.fd), pool := Step(s.pool, MAIN, Append(s.main.fd)).value)) else None
    case GoOn(t) =>
      if t !in s.pool.phase || s.pool.phase[t].RunServing? then None
      else
        var next := Step(s.pool, t, Continue);
        if next == None then None
        else Some(s.(pool := next.value, main := if t == MAIN && next.value.phase[t].Idle? then InWait else s.main))
    case Finish(t) =>
      if Serving(s, t) && t !in Closers(s)
      then Some(s.(armed := Modfd(s, s.pool.phase[t].request), pool := Step(s.pool, t, Continue).value)) else None
    case CloseFd(t) =>
      if Serving(s, t) && t !in Closers(s) then
        var fd := s.pool.phase[t].request;
        if fd in s.sock then Some(s.(open := s.open - {fd}, armed := s.armed - {fd}, closed := s.closed + {t}))
        else Some(s.(reset := s.reset + {t}))
      else None
    case ResetFd(t) =>
      if Serving(s, t) && t in s.closed
      then Some(s.(sock := s.sock - {s.pool.phase[t].request}, closed := s.closed - {t}, reset := s.reset + {t}))
        else None
    case LastModfd(t) =>
      if Serving(s, t) && t in s.reset
      then Some(s.(armed := Modfd(s, s.pool.phase[t].request), pool := Step(s.pool, t, Continue).value,
        reset := s.reset - {t}))
      else None
    case Expire(fd) =>
      if s.main == InWait && fd in s.open then Some(s.(open := s.open - {fd}, armed := s.armed - {fd})) else None
  }

  /** A place from which a connection is accessed or will be */
  datatype Place = InEpoll | WithMain | InQueue(index: nat) | WithWorker(t: Tid)

  predicate At(s: Server, fd: Fd, p: Place) {
    match p
    case InEpoll => fd in s.armed
    case WithMain => s.main == Admitting(fd) || s.main == Handling(fd) || (s.main == Appending(fd) && BeforePush(s))
    case InQueue(i) => i < |s.pool.queue| && s.pool.queue[i] == fd
    case WithWorker(t) =>
      t in s.pool.phase && (s.pool.phase[t] == RunPopped(fd) || s.pool.phase[t] == RunServing(fd))
  }

  predicate BeforePush(s: Server) {
    MAIN in s.pool.phase && (s.pool.phase[MAIN].AppendEntered? || s.pool.phase[MAIN].AppendAdmitted?)
  }

  /** Every connection is in at most one place. */
  ghost predicate OnePlace(s: Server) {
    forall fd, p, q | At(s, fd, p) && At(s, fd, q) :: p == q
  }

  /** Only the main loop appends, and what it appends is the connection it handles. */
  ghost predicate MainAppends(s: Server) {
    && MAIN in s.pool.phase
    && (forall t | t in s.pool.phase && t != MAIN :: IsWorker(s.pool.phase[t]))
    && match s.main
       case Appending(fd) =>
         var p := s.pool.phase[MAIN];
         p == AppendEntered(fd) || p == AppendAdmitted(fd) || p.AppendRefused? || p.AppendPushed? || p.AppendUnlocked?
       case _ => s.pool.phase[MAIN].Idle?
  }

  predicate IsWorker(p: Phase<Fd>) {
    p.RunIdle? || p.RunGranted? || p.RunLocked? || p.RunFoundEmpty? || p.RunPopped? || p.RunServing?
  }

  /** The server before its first event */
  ghost predicate Start(s: Server) {
    && Initial(s.pool) && s.main == InWait && s.armed == {} && s.closed == {} && s.reset == {}
    && MAIN in s.pool.phase && s.pool.phase[MAIN].Idle?
    && forall t | t in s.pool.phase && t != MAIN :: s.pool.phase[t].RunIdle?
  }

  // ----- runs -----

  /** The next state; an action that is impossible when its turn comes is skipped. */
  function Next(s: Server, a: Action): Server {
    if Act(s, a).Some? then Act(s, a).value else s
  }

  function Run(s: Server, actions: seq<Action>): Server
    decreases |actions|
  {
    if actions == [] then s else Run(Next(s, actions[0]), actions[1..])
  }

  lemma RunFirst(s: Server, a: Action, rest: seq<Action>)
    ensures Run(s, [a] + rest) == Run(Next(s, a), rest) && Run(s, []) == s
  {
    hide Next;
    assert ([a] + rest)[1..] == rest;
  }

  lemma RunTake(s: Server, actions: seq<Action>, k: nat)
    requires 0 < k <= |actions|
    ensures Run(s, actions[..k]) == Run(Next(s, actions[0]), actions[1..][..k - 1])
  {
    hide Next;
    assert actions[..k] == [actions[0]] + actions[1..][..k - 1];
    RunFirst(s, actions[0], actions[1..][..k - 1]);
  }

  /** `ok` holds at every moment of a run. */
  ghost predicate Always(s: Server, actions: seq<Action>, ok: Server -> bool) {
    forall k | 0 <= k <= |actions| :: ok(Run(s, actions[..k]))
  }

  lemma AlwaysFirst(s: Server, actions: seq<Action>, ok: Server -> bool)
    requires ok(s)
    ensures Always(s, actions, ok) <==> actions == [] || Always(Next(s, actions[0]), actions[1..], ok)
  {
    hide Next;
    RunFirst(s, Register, []);
    forall k | 0 < k <= |actions|
      ensures Run(s, actions[..k]) == Run(Next(s, actions[0]), actions[1..][..k - 1])
    {
      RunTake(s, actions, k);
    }
    if actions != [] && Always(s, actions, ok) {
      forall j | 0 <= j <= |actions[1..]| ensures ok(Run(Next(s, actions[0]), actions[1..][..j])) {
        assert ok(Run(s, actions[..j + 1]));
      }
    }
  }

  lemma AlwaysNow(s: Server, actions: seq<Action>, ok: Server -> bool)
    requires Always(s, actions, ok)
    ensures ok(s)
  {
    RunFirst(s, Register, []);
    assert ok(Run(s, actions[..0]));
  }
}
