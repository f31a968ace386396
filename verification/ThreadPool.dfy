/**
 The thread pool of threadpool.h as a step system: any number of threads run append() and run(), one
 statement at a time. As coded, append() posts the semaphore after it has released the lock, and run()
 waits for it before it takes the lock.
*/
module ThreadPool {
  import opened Wrappers
  import opened Counting

  /** Where a thread is. A thread in one of the phases marked with * holds the lock. */
  datatype Phase<T> =
    | Idle                       // outside append(), free to call it
    | AppendEntered(request: T)  // * before the test of the queue length
    | AppendRefused              // * the queue is full
    | AppendAdmitted(request: T) // * before push_back
    | AppendPushed               // * before unlock
    | AppendUnlocked             // before post
    | RunIdle                    // at the head of the loop in run(), before wait
    | RunGranted                 // wait has returned, before lock
    | RunLocked                  // * before the test for an empty queue
    | RunFoundEmpty              // * in the branch for an empty queue
    | RunPopped(request: T)      // * before unlock
    | RunServing(request: T)     // processing the request

  predicate HoldsLock<T>(p: Phase<T>) {
    p.AppendEntered? || p.AppendRefused? || p.AppendAdmitted? || p.AppendPushed? ||
    p.RunLocked? || p.RunFoundEmpty? || p.RunPopped?
  }

  /** The queue, the semaphore, the lock and the threads; `accepted` and `taken` record what was pushed and popped. */
  datatype Pool<T> = Pool(
    queue: seq<T>,
    sem: nat,
    holder: Option<Tid>,
    phase: map<Tid, Phase<T>>,
    maxRequests: nat,
    accepted: seq<T>,
    taken: seq<T>)

  /** What a thread does when it is scheduled; only an idle thread has a choice. */
  datatype Action<T> = Append(request: T) | Continue

  /** The thread `t` moves to phase `p`. */
  function Move<T>(s: Pool<T>, t: Tid, p: Phase<T>): Pool<T> {
    s.(phase := s.phase[t := p])
  }

  /** The next statement of thread `t`; None if the thread is blocked. */
  function Step<T>(s: Pool<T>, t: Tid, action: Action<T>): Option<Pool<T>> {
    if t !in s.phase then None
    else
      match s.phase[t]
      case Idle =>
        if action.Append? && s.holder == None
        then Some(Move(s, t, AppendEntered(action.request)).(holder := Some(t))) else None
      case AppendEntered(r) => Some(Move(s, t, if |s.queue| > s.maxRequests then AppendRefused else AppendAdmitted(r)))
      case AppendRefused => Some(Move(s, t, Idle).(holder := None))
      case AppendAdmitted(r) => Some(Move(s, t, AppendPushed).(queue := s.queue + [r], accepted := s.accepted + [r]))
      case AppendPushed => Some(Move(s, t, AppendUnlocked).(holder := None))
      case AppendUnlocked => Some(Move(s, t, Idle).(sem := s.sem + 1))
      case RunIdle => if s.sem > 0 then Some(Move(s, t, RunGranted).(sem := s.sem - 1)) else None
      case RunGranted => if s.holder == None then Some(Move(s, t, RunLocked).(holder := Some(t))) else None
      case RunLocked =>
        if s.queue == [] then Some(Move(s, t, RunFoundEmpty))
        else Some(Move(s, t, RunPopped(s.queue[0])).(queue := s.queue[1..], taken := s.taken + [s.queue[0]]))
      case RunFoundEmpty => Some(Move(s, t, RunIdle).(holder := None))
      case RunPopped(r) => Some(Move(s, t, RunServing(r)).(holder := None))
      case RunServing(_) => Some(Move(s, t, RunIdle))
  }

  /** A schedule; a blocked thread does not move when it is scheduled. */
  function Run<T>(s: Pool<T>, schedule: seq<(Tid, Action<T>)>): Pool<T>
    decreases |schedule|
  {
    if schedule == [] then s
    else
      var next := Step(s, schedule[0].0, schedule[0].1);
      Run(if next.Some? then next.value else s, schedule[1..])
  }

  // ----- the threads that matter to the counts -----

  /** Has pushed and not yet posted */
  predicate Owing<T>(p: Phase<T>) {
    p.AppendPushed? || p.AppendUnlocked?
  }

  /** Its wait has returned, and it has not yet popped */
  predicate Granted<T>(p: Phase<T>) {
    p.RunGranted? || p.RunLocked? || p.RunFoundEmpty?
  }

  // ----- the invariant -----

  /** The lock is held by exactly the thread that is inside a critical section. */
  ghost predicate LockIsExclusive<T>(s: Pool<T>) {
    && (forall t | t in s.phase :: HoldsLock(s.phase[t]) <==> s.holder == Some(t))
    && (s.holder.Some? ==> s.holder.value in s.phase)
  }

  /**
   Every queued request is matched by one unit: in the semaphore, still owed by its appender, or granted to a
   worker.
  */
  ghost predicate SemaphoreConserved<T>(s: Pool<T>) {
    |s.queue| == s.sem + |Members(s.phase, Owing)| + |Members(s.phase, Granted)|
  }

  ghost predicate Inv<T>(s: Pool<T>) {
    && LockIsExclusive(s)
    && SemaphoreConserved(s)
    && s.accepted == s.taken + s.queue
    && |s.queue| <= s.maxRequests + 1
    && (forall t | t in s.phase :: s.phase[t].AppendAdmitted? ==> |s.queue| <= s.maxRequests)
    && (forall t | t in s.phase :: !s.phase[t].RunFoundEmpty?)
  }

  /** A pool that has just been made: nothing queued, every thread at rest */
  ghost predicate Initial<T>(s: Pool<T>) {
    && s.queue == [] && s.sem == 0 && s.holder == None && s.accepted == [] && s.taken == []
    && forall t | t in s.phase :: s.phase[t].Idle? || s.phase[t].RunIdle?
  }

  lemma InitialInv<T>(s: Pool<T>)
    requires Initial(s)
    ensures Inv(s)
  {
    assert Members(s.phase, Owing) == {} && Members(s.phase, Granted) == {};
  }

  /** A worker whose wait has returned finds a request. */
  lemma GrantedFindsRequest<T>(s: Pool<T>, t: Tid)
    requires SemaphoreConserved(s) && t in s.phase && Granted(s.phase[t])
    ensures s.queue != []
  {
    assert t in Members(s.phase, Granted);
  }

  /** A statement moves one thread, and the lock goes with that thread. */
  lemma StepMoves<T>(s: Pool<T>, t: Tid, action: Action<T>)
    requires Step(s, t, action).Some? && (HoldsLock(s.phase[t]) <==> s.holder == Some(t))
    ensures var next := Step(s, t, action).value;
      && t in s.phase && t in next.phase && next.phase == s.phase[t := next.phase[t]]
      && (next.holder == if HoldsLock(next.phase[t]) then Some(t) else if HoldsLock(s.phase[t]) then None else s.holder)
      && (HoldsLock(next.phase[t]) && !HoldsLock(s.phase[t]) ==> s.holder == None)
  {
  }

  lemma StepKeepsLock<T>(s: Pool<T>, t: Tid, action: Action<T>)
    requires LockIsExclusive(s) && Step(s, t, action).Some?
    ensures LockIsExclusive(Step(s, t, action).value)
  {
    assert t in s.phase;
    StepMoves(s, t, action);
    hide Step, HoldsLock;
  }

  /** What a statement does to the balance, read off the one thread that it moves */
  lemma StepBalance<T>(s: Pool<T>, t: Tid, action: Action<T>)
    requires Step(s, t, action).Some?
    ensures var next := Step(s, t, action).value;
      && t in s.phase && t in next.phase && next.phase == s.phase[t := next.phase[t]]
      && |next.queue| - next.sem - Bit(Owing(next.phase[t])) - Bit(Granted(next.phase[t])) ==
           |s.queue| - s.sem - Bit(Owing(s.phase[t])) - Bit(Granted(s.phase[t])) + Bit(s.phase[t].RunFoundEmpty?)
  {
  }

  /** Every statement keeps the balance, except leaving the branch for an empty queue, which loses a unit. */
  lemma StepConserves<T>(s: Pool<T>, t: Tid, action: Action<T>)
    requires SemaphoreConserved(s) && Step(s, t, action).Some?
    ensures SemaphoreConserved(Step(s, t, action).value) <==> !s.phase[t].RunFoundEmpty?
  {
    hide Step, Members, Owing, Granted;
    StepBalance(s, t, action);
    var next := Step(s, t, action).value;
    MoveCounts(s.phase, t, next.phase[t], Owing);
    MoveCounts(s.phase, t, next.phase[t], Granted);
  }

  lemma StepKeepsInv<T>(s: Pool<T>, t: Tid, action: Action<T>)
    requires Inv(s) && Step(s, t, action).Some?
    ensures Inv(Step(s, t, action).value)
  {
    hide SemaphoreConserved;
    StepKeepsLock(s, t, action);
    StepConserves(s, t, action);
    if s.phase[t].RunLocked? {
      GrantedFindsRequest(s, t);
    }
    assert s.phase[t].AppendAdmitted? ==> |s.queue| <= s.maxRequests;
  }

  /** In every run of any number of appenders and workers the invariant holds throughout. */
  lemma {:induction false} RunKeepsInv<T>(s: Pool<T>, schedule: seq<(Tid, Action<T>)>)
    requires Inv(s)
    ensures Inv(Run(s, schedule))
    decreases |schedule|
  {
    if schedule != [] {
      var next := Step(s, schedule[0].0, schedule[0].1);
      if next.Some? {
        StepKeepsInv(s, schedule[0].0, schedule[0].1);
      }
      RunKeepsInv(if next.Some? then next.value else s, schedule[1..]);
    }
  }

  /** The branch for an empty queue is never entered, and the queue never exceeds the limit by more than one. */
  lemma EmptyBranchIsDead<T>(s: Pool<T>, schedule: seq<(Tid, Action<T>)>, t: Tid)
    requires Initial(s)
    ensures var r := Run(s, schedule);
      && (t in r.phase ==> !r.phase[t].RunFoundEmpty?)
      && |r.queue| <= s.maxRequests + 1
  {
    InitialInv(s);
    RunKeepsInv(s, schedule);
    SameLimit(s, schedule);
  }

  lemma {:induction false} SameLimit<T>(s: Pool<T>, schedule: seq<(Tid, Action<T>)>)
    ensures Run(s, schedule).maxRequests == s.maxRequests
    decreases |schedule|
  {
    if schedule != [] {
      var next := Step(s, schedule[0].0, schedule[0].1);
      SameLimit(if next.Some? then next.value else s, schedule[1..]);
    }
  }

  /** Requests leave the queue in the order in which they were accepted, none twice and none invented. */
  lemma ServedInOrder<T>(s: Pool<T>, schedule: seq<(Tid, Action<T>)>)
    requires Initial(s)
    ensures var r := Run(s, schedule); r.taken <= r.accepted && r.accepted == r.taken + r.queue
  {
    InitialInv(s);
    RunKeepsInv(s, schedule);
  }

  /**
   No wake-up is lost: if no append is under way and every worker is at its wait, each queued request has its
   unit.
  */
  lemma NoLostWakeup<T>(s: Pool<T>, schedule: seq<(Tid, Action<T>)>, t: Tid)
    requires Initial(s)
    requires var r := Run(s, schedule);
      (forall u | u in r.phase :: r.phase[u].Idle? || r.phase[u].RunIdle? || r.phase[u].RunServing?) &&
      t in r.phase && r.phase[t].RunIdle?
    ensures var r := Run(s, schedule); Step(r, t, Continue).Some? <==> r.queue != []
  {
    InitialInv(s);
    RunKeepsInv(s, schedule);
    var r := Run(s, schedule);
    assert Members(r.phase, Owing) == {} && Members(r.phase, Granted) == {};
  }

  /** The thread that holds the lock is never blocked. */
  lemma HolderGoesOn<T>(s: Pool<T>, schedule: seq<(Tid, Action<T>)>)
    requires Initial(s)
    ensures var r := Run(s, schedule); r.holder.Some? ==> Step(r, r.holder.value, Continue).Some?
  {
    InitialInv(s);
    RunKeepsInv(s, schedule);
  }

  // ----- one thread alone, and the pool as an object -----

  function AppendSchedule<T>(t: Tid, request: T): seq<(Tid, Action<T>)> {
    [(t, Append(request)), (t, Continue), (t, Continue), (t, Continue), (t, Continue)]
  }

  function TakeSchedule<T>(t: Tid): seq<(Tid, Action<T>)> {
    [(t, Continue), (t, Continue), (t, Continue), (t, Continue)]
  }

  lemma RunFirst<T>(s: Pool<T>, t: Tid, action: Action<T>, rest: seq<(Tid, Action<T>)>)
    ensures Run(s, [(t, action)] + rest) ==
      Run(if Step(s, t, action).Some? then Step(s, t, action).value else s, rest)
  {
    hide Step;
    assert ([(t, action)] + rest)[1..] == rest;
  }

  /** An append that nobody interrupts: the request is queued and posted, unless the queue is over its limit. */
  lemma AppendAlone<T>(s: Pool<T>, t: Tid, request: T)
    requires t in s.phase && s.phase[t].Idle? && s.holder == None
    ensures Run(s, AppendSchedule(t, request)) ==
      if |s.queue| > s.maxRequests then s
      else s.(queue := s.queue + [request], sem := s.sem + 1, accepted := s.accepted + [request])
  {
    hide Run;
    var c: (Tid, Action<T>) := (t, Continue);
    var s1 := Step(s, t, Append(request)).value;
    RunFirst(s, t, Append(request), [c, c, c, c]);
    var s2 := Step(s1, t, Continue).value;
    RunFirst(s1, t, Continue, [c, c, c]);
    var s3 := Step(s2, t, Continue).value;
    RunFirst(s2, t, Continue, [c, c]);
    assert AppendSchedule(t, request) == [(t, Append(request))] + [c, c, c, c];
    assert [c, c, c, c] == [c] + [c, c, c] && [c, c, c] == [c] + [c, c] && [c, c] == [c] + [c] && [c] == [c] + [];
    if |s.queue| > s.maxRequests {
      assert s3.phase == s.phase;
      assert s3 == s;
      RunFirst(s, t, Continue, [c]);
      RunFirst(s, t, Continue, []);
    } else {
      var s4 := Step(s3, t, Continue).value;
      RunFirst(s3, t, Continue, [c]);
      var s5 := Step(s4, t, Continue).value;
      RunFirst(s4, t, Continue, []);
      assert s5.phase == s.phase;
    }
    RunNothing(Run(s, AppendSchedule(t, request)));
    RunNothing(s);
    RunNothing(s.(queue := s.queue + [request], sem := s.sem + 1, accepted := s.accepted + [request]));
  }

  lemma RunNothing<T>(s: Pool<T>)
    ensures Run(s, []) == s
  {
  }

  lemma {:induction false} RunAppend<T>(s: Pool<T>, first: seq<(Tid, Action<T>)>, second: seq<(Tid, Action<T>)>)
    ensures Run(s, first + second) == Run(Run(s, first), second)
    decreases |first|
  {
    hide Step;
    if first == [] {
      assert first + second == second;
    } else {
      assert (first + second)[1..] == first[1..] + second;
      var next := Step(s, first[0].0, first[0].1);
      RunAppend(if next.Some? then next.value else s, first[1..], second);
    }
  }

  /** The bound is met: with no worker running, appends fill the queue to one more than the limit. */
  lemma {:induction false} LimitIsReached<T>(s: Pool<T>, t: Tid, request: T, n: nat)
    requires Initial(s) && t in s.phase && s.phase[t].Idle? && n <= s.maxRequests + 1
    ensures exists schedule :: Run(s, schedule) == Filled(s, request, n)
  {
    hide Run;
    if n == 0 {
      RunNothing(s);
      assert Filled(s, request, 0) == s;
    } else {
      LimitIsReached(s, t, request, n - 1);
      var schedule :| Run(s, schedule) == Filled(s, request, n - 1);
      RunAppend(s, schedule, AppendSchedule(t, request));
      AppendAlone(Filled(s, request, n - 1), t, request);
      assert Filled(s, request, n).queue == Filled(s, request, n - 1).queue + [request];
      assert Run(s, schedule + AppendSchedule(t, request)) == Filled(s, request, n);
    }
  }

  /** The pool with `n` copies of a request queued and posted */
  function Filled<T>(s: Pool<T>, request: T, n: nat): Pool<T> {
    var copies := seq(n, _ => request);
    s.(queue := copies, accepted := copies, sem := n)
  }

  class ThreadPool<T> {
    var workQueue: seq<T>
    var queueStat: nat
    const maxRequests: nat
    ghost var holder: Option<Tid>
    ghost var phase: map<Tid, Phase<T>>
    ghost var accepted: seq<T>
    ghost var taken: seq<T>

    ghost function View(): Pool<T>
      reads this
    {
      Pool(workQueue, queueStat, holder, phase, maxRequests, accepted, taken)
    }

    constructor (maxRequests: nat, ghost threads: map<Tid, Phase<T>>)
      requires maxRequests > 0
      requires forall t | t in threads :: threads[t].Idle? || threads[t].RunIdle?
      ensures Initial(View()) && View().maxRequests == maxRequests && View().phase == threads
    {
      workQueue, queueStat := [], 0;
      this.maxRequests := maxRequests;
      holder, phase, accepted, taken := None, threads, [], [];
    }

    /** append(), run by thread `t` without interruption */
    method Append(ghost t: Tid, request: T) returns (ok: bool)
      requires t in phase && phase[t].Idle? && holder == None
      modifies this
      ensures View() == Run(old(View()), AppendSchedule(t, request))
      ensures ok <==> old(|workQueue|) <= maxRequests
      ensures ok ==> workQueue == old(workQueue) + [request]
    {
      AppendAlone(View(), t, request);
      if |workQueue| > maxRequests {
        return false;
      }
      workQueue := workQueue + [request];
      accepted := accepted + [request];
      queueStat := queueStat + 1;
      return true;
    }

    /** The part of run() up to the request, run by worker `t` without interruption once the semaphore admits it */
    method Take(ghost t: Tid) returns (request: T)
      requires t in phase && phase[t].RunIdle? && holder == None && Inv(View()) && queueStat > 0
      modifies this
      ensures View() == Run(old(View()), TakeSchedule(t))
      ensures old(workQueue) == [request] + workQueue && phase == old(phase)[t := RunServing(request)]
    {
      UnitMeansRequest(View());
      TakeAlone(View(), t);
      queueStat := queueStat - 1;
      request := workQueue[0];
      workQueue := workQueue[1..];
      phase := phase[t := RunServing(request)];
      taken := taken + [request];
    }
  }

  lemma UnitMeansRequest<T>(s: Pool<T>)
    requires Inv(s) && s.sem > 0
    ensures s.queue != []
  {
  }

  /** A worker that nobody interrupts takes the first request. */
  lemma TakeAlone<T>(s: Pool<T>, t: Tid)
    requires t in s.phase && s.phase[t].RunIdle? && s.holder == None && s.sem > 0 && s.queue != []
    ensures Run(s, TakeSchedule(t)) ==
      s.(queue := s.queue[1..], sem := s.sem - 1, phase := s.phase[t := RunServing(s.queue[0])],
        taken := s.taken + [s.queue[0]])
  {
    hide Run;
    var c: (Tid, Action<T>) := (t, Continue);
    var s2 := EnterAlone(s, t);
    LeaveAlone(s2, t);
    assert TakeSchedule<T>(t) == [c, c] + [c, c];
    RunAppend(s, [c, c], [c, c]);
    assert s2.phase[t := RunServing(s.queue[0])] == s.phase[t := RunServing(s.queue[0])];
  }

  /** wait and lock */
  lemma EnterAlone<T>(s: Pool<T>, t: Tid) returns (r: Pool<T>)
    requires t in s.phase && s.phase[t].RunIdle? && s.holder == None && s.sem > 0
    ensures r == s.(sem := s.sem - 1, phase := s.phase[t := RunLocked], holder := Some(t))
    ensures Run(s, [(t, Continue), (t, Continue)]) == r
  {
    hide Run;
    var c: (Tid, Action<T>) := (t, Continue);
    r := s.(sem := s.sem - 1, phase := s.phase[t := RunLocked], holder := Some(t));
    var s1 := s.(sem := s.sem - 1, phase := s.phase[t := RunGranted]);
    RunFirst(s, t, Continue, [c]);
    RunFirst(s1, t, Continue, []);
    assert s1.phase[t := RunLocked] == s.phase[t := RunLocked];
    assert [c, c] == [c] + [c] && [c] == [c] + [];
    RunNothing(r);
  }

  /** pop_front and unlock */
  lemma LeaveAlone<T>(s: Pool<T>, t: Tid)
    requires t in s.phase && s.phase[t].RunLocked? && s.queue != []
    ensures Run(s, [(t, Continue), (t, Continue)]) ==
      s.(queue := s.queue[1..], phase := s.phase[t := RunServing(s.queue[0])], taken := s.taken + [s.queue[0]],
        holder := None)
  {
    hide Run;
    var c: (Tid, Action<T>) := (t, Continue);
    var s1 := s.(queue := s.queue[1..], phase := s.phase[t := RunPopped(s.queue[0])], taken := s.taken + [s.queue[0]]);
    var s2 := s1.(phase := s.phase[t := RunServing(s.queue[0])], holder := None);
    RunFirst(s, t, Continue, [c]);
    RunFirst(s1, t, Continue, []);
    assert s1.phase[t := RunServing(s.queue[0])] == s2.phase;
    assert [c, c] == [c] + [c] && [c] == [c] + [];
    RunNothing(s2);
  }
}
