/**
 The database connection pool of sql_connection_pool.cpp as a step system: any number of threads get a
 connection through connectionRAII and give it back, one statement at a time. As coded, GetConnection()
 looks at the list without the lock, waits on the semaphore before it locks, and ReleaseConnection() posts
 after it has unlocked.
*/
module ConnectionPool {
  import opened Wrappers
  import opened Counting

  type Con = nat

  /** Where a thread is. A thread in one of the phases marked with * holds the lock. */
  datatype Phase =
    | Idle                // owns no connectionRAII object
    | Checked             // has seen a non-empty list, before reserve.wait()
    | GotNull             // GetConnection() has returned NULL
    | Admitted            // wait() has returned, before lock
    | Locked              // * before front() and pop_front()
    | Taken(con: Con)     // * before the counters are changed
    | Counted(con: Con)   // * before unlock
    | Holding(con: Con)   // uses the connection
    | Returning(con: Con) // * before push_back()
    | Returned            // * before the counters are changed
    | Recounted           // * before unlock
    | Posting             // before reserve.post()

  predicate HoldsLock(p: Phase) {
    p.Locked? || p.Taken? || p.Counted? || p.Returning? || p.Returned? || p.Recounted?
  }

  datatype Pool = Pool(
    list: seq<Con>,
    reserve: nat,
    free: int,
    cur: int,
    maxConn: nat,
    holder: Option<Tid>,
    phase: map<Tid, Phase>)

  function Move(s: Pool, t: Tid, p: Phase): Pool {
    s.(phase := s.phase[t := p])
  }

  function Lock(s: Pool, t: Tid, p: Phase): Option<Pool> {
    if s.holder == None then Some(Move(s, t, p).(holder := Some(t))) else None
  }

  function Unlock(s: Pool, t: Tid, p: Phase): Option<Pool> {
    Some(Move(s, t, p).(holder := None))
  }

  /** The next statement of thread `t`; None if the thread is blocked or takes front() of an empty list. */
  function Step(s: Pool, t: Tid): Option<Pool> {
    if t !in s.phase then None
    else
      match s.phase[t]
      case Idle => Some(Move(s, t, if s.list == [] then GotNull else Checked))
      case Checked => if s.reserve > 0 then Some(Move(s, t, Admitted).(reserve := s.reserve - 1)) else None
      case GotNull => Some(Move(s, t, Idle))
      case Admitted => Lock(s, t, Locked)
      case Locked => if s.list == [] then None else Some(Move(s, t, Taken(s.list[0])).(list := s.list[1..]))
      case Taken(con) => Some(Move(s, t, Counted(con)).(free := s.free - 1, cur := s.cur + 1))
      case Counted(con) => Unlock(s, t, Holding(con))
      case Holding(con) => Lock(s, t, Returning(con))
      case Returning(con) => Some(Move(s, t, Returned).(list := s.list + [con]))
      case Returned => Some(Move(s, t, Recounted).(free := s.free + 1, cur := s.cur - 1))
      case Recounted => Unlock(s, t, Posting)
      case Posting => Some(Move(s, t, Idle).(reserve := s.reserve + 1))
  }

  /** A schedule of threads; a blocked thread does not move when it is scheduled. */
  function Run(s: Pool, schedule: seq<Tid>): Pool
    decreases |schedule|
  {
    if schedule == [] then s else Run(Next(s, schedule[0]), schedule[1..])
  }

  function Next(s: Pool, t: Tid): Pool {
    if Step(s, t).Some? then Step(s, t).value else s
  }

  // ----- the threads that matter to the counts -----

  /** Has a connection */
  predicate Owner(p: Phase) {
    p.Taken? || p.Counted? || p.Holding? || p.Returning?
  }

  /** Its wait has returned, and it has not yet popped */
  predicate Granted(p: Phase) {
    p.Admitted? || p.Locked?
  }

  /** Has pushed and not yet posted */
  predicate Owing(p: Phase) {
    p.Returned? || p.Recounted? || p.Posting?
  }

  // ----- the invariant -----

  ghost predicate LockIsExclusive(s: Pool) {
    && (forall t | t in s.phase :: HoldsLock(s.phase[t]) <==> s.holder == Some(t))
    && (s.holder.Some? ==> s.holder.value in s.phase)
  }

  /** Each free connection is matched by one unit: in the semaphore, granted to a thread, or still owed by one. */
  ghost predicate SemaphoreConserved(s: Pool) {
    && |s.list| == s.reserve + |Members(s.phase, Granted)| + |Members(s.phase, Owing)|
    && |s.list| + |Members(s.phase, Owner)| == s.maxConn
  }

  /** Thread `t` has connection `c`. */
  predicate Owns(phase: map<Tid, Phase>, t: Tid, c: Con) {
    t in phase && Owner(phase[t]) && phase[t].con == c
  }

  /** No connection is in the list twice, in the list and held, or held by two threads. */
  ghost predicate Separate(list: seq<Con>, phase: map<Tid, Phase>) {
    && (forall i, j | 0 <= i < j < |list| :: list[i] != list[j])
    && (forall t, c | Owns(phase, t, c) :: c !in list)
    && (forall t, u, c | Owns(phase, t, c) && Owns(phase, u, c) :: t == u)
  }

  /** The connections in the list and the held ones are those of `all`. */
  ghost predicate Covered(list: seq<Con>, phase: map<Tid, Phase>, all: set<Con>) {
    && (forall c | c in list :: c in all)
    && (forall t, c | Owns(phase, t, c) :: c in all)
    && (forall c | c in all :: c in list || exists t :: Owns(phase, t, c))
  }

  /** Every connection of `all` is in the list exactly once or held by exactly one thread. */
  ghost predicate ConnectionsConserved(s: Pool, all: set<Con>) {
    Separate(s.list, s.phase) && Covered(s.list, s.phase, all)
  }

  /** What the thread inside the critical section has not counted yet */
  function Uncounted(s: Pool): int {
    if s.holder.None? || s.holder.value !in s.phase then 0
    else match s.phase[s.holder.value] case Taken(_) => 1 case Returned => -1 case _ => 0
  }

  ghost predicate CountersRight(s: Pool) {
    s.free == |s.list| + Uncounted(s) && s.free + s.cur == s.maxConn
  }

  ghost predicate Inv(s: Pool, all: set<Con>) {
    LockIsExclusive(s) && SemaphoreConserved(s) && ConnectionsConserved(s, all) && CountersRight(s)
  }

  /** After init(): all connections free and different, all threads idle */
  ghost predicate Initial(s: Pool) {
    && (forall i, j | 0 <= i < j < |s.list| :: s.list[i] != s.list[j])
    && s.maxConn == s.reserve == s.free == |s.list| && s.cur == 0 && s.holder == None
    && forall t | t in s.phase :: s.phase[t].Idle?
  }

  function All(s: Pool): set<Con> {
    set c | c in s.list
  }

  lemma InitialInv(s: Pool)
    requires Initial(s)
    ensures Inv(s, All(s))
  {
    assert Members(s.phase, Owner) == {} && Members(s.phase, Granted) == {} && Members(s.phase, Owing) == {};
  }

  /** A statement moves one thread, and the lock goes with that thread. */
  lemma StepMoves(s: Pool, t: Tid)
    requires Step(s, t).Some? && (HoldsLock(s.phase[t]) <==> s.holder == Some(t))
    ensures var next := Step(s, t).value;
      && t in s.phase && t in next.phase && next.phase == s.phase[t := next.phase[t]]
      && (next.holder == if HoldsLock(next.phase[t]) then Some(t) else if HoldsLock(s.phase[t]) then None else s.holder)
      && (HoldsLock(next.phase[t]) && !HoldsLock(s.phase[t]) ==> s.holder == None)
  {
  }

  lemma StepKeepsLock(s: Pool, t: Tid)
    requires LockIsExclusive(s) && Step(s, t).Some?
    ensures LockIsExclusive(Step(s, t).value)
  {
    assert t in s.phase;
    StepMoves(s, t);
    hide Step, HoldsLock;
  }

  lemma StepConservesSemaphore(s: Pool, t: Tid)
    requires SemaphoreConserved(s) && Step(s, t).Some?
    ensures SemaphoreConserved(Step(s, t).value)
  {
    hide Members;
    var next := Step(s, t).value;
    assert next.phase == s.phase[t := next.phase[t]];
    MoveCounts(s.phase, t, next.phase[t], Granted);
    MoveCounts(s.phase, t, next.phase[t], Owing);
    MoveCounts(s.phase, t, next.phase[t], Owner);
  }

  lemma StepKeepsCounters(s: Pool, t: Tid)
    requires LockIsExclusive(s) && CountersRight(s) && Step(s, t).Some?
    ensures CountersRight(Step(s, t).value)
  {
    assert HoldsLock(s.phase[t]) ==> s.holder == Some(t);
  }

  /** A step that neither pops nor pushes does not change who has what. */
  lemma QuietStep(list: seq<Con>, phase: map<Tid, Phase>, t: Tid, p: Phase, all: set<Con>)
    requires Separate(list, phase) && Covered(list, phase, all) && t in phase
    requires Owner(phase[t]) == Owner(p) && (Owner(p) ==> phase[t].con == p.con)
    ensures Separate(list, phase[t := p]) && Covered(list, phase[t := p], all)
  {
    var phase' := phase[t := p];
    assert forall u, c :: Owns(phase', u, c) <==> Owns(phase, u, c);
    forall c | c in all ensures c in list || exists u :: Owns(phase', u, c) {
      if c !in list {
        var u :| Owns(phase, u, c);
        assert Owns(phase', u, c);
      }
    }
  }

  lemma PopStep(list: seq<Con>, phase: map<Tid, Phase>, t: Tid, all: set<Con>)
    requires Separate(list, phase) && Covered(list, phase, all)
    requires t in phase && !Owner(phase[t]) && list != []
    ensures Separate(list[1..], phase[t := Taken(list[0])]) && Covered(list[1..], phase[t := Taken(list[0])], all)
  {
    var phase' := phase[t := Taken(list[0])];
    assert forall u, c :: Owns(phase', u, c) <==> if u == t then c == list[0] else Owns(phase, u, c);
    assert forall c :: c in list <==> c == list[0] || c in list[1..];
    forall c | c in all ensures c in list[1..] || exists u :: Owns(phase', u, c) {
      if c == list[0] {
        assert Owns(phase', t, c);
      } else if c !in list {
        var u :| Owns(phase, u, c);
        assert Owns(phase', u, c);
      }
    }
  }

  lemma PushStep(list: seq<Con>, phase: map<Tid, Phase>, t: Tid, c0: Con, all: set<Con>)
    requires Separate(list, phase) && Covered(list, phase, all) && Owns(phase, t, c0)
    ensures Separate(list + [c0], phase[t := Returned]) && Covered(list + [c0], phase[t := Returned], all)
  {
    var phase' := phase[t := Returned];
    assert forall u, c :: Owns(phase', u, c) <==> u != t && Owns(phase, u, c);
    assert forall c :: c in list + [c0] <==> c == c0 || c in list;
    forall c | c in all ensures c in list + [c0] || exists u :: Owns(phase', u, c) {
      if c !in list && c != c0 {
        var u :| Owns(phase, u, c);
        assert Owns(phase', u, c);
      }
    }
  }

  lemma StepConservesConnections(s: Pool, t: Tid, all: set<Con>)
    requires ConnectionsConserved(s, all) && Step(s, t).Some?
    ensures ConnectionsConserved(Step(s, t).value, all)
  {
    hide Separate, Covered;
    var next := Step(s, t).value;
    assert next.phase == s.phase[t := next.phase[t]];
    if s.phase[t].Locked? {
      PopStep(s.list, s.phase, t, all);
    } else if s.phase[t].Returning? {
      PushStep(s.list, s.phase, t, s.phase[t].con, all);
    } else {
      QuietStep(s.list, s.phase, t, next.phase[t], all);
    }
  }

  lemma StepKeepsInv(s: Pool, t: Tid, all: set<Con>)
    requires Inv(s, all) && Step(s, t).Some?
    ensures Inv(Step(s, t).value, all)
  {
    hide Step, LockIsExclusive, SemaphoreConserved, ConnectionsConserved, CountersRight;
    StepKeepsLock(s, t);
    StepConservesSemaphore(s, t);
    StepKeepsCounters(s, t);
    StepConservesConnections(s, t, all);
  }

  /** In every run of any number of threads every connection and every count is conserved. */
  lemma {:induction false} RunKeepsInv(s: Pool, all: set<Con>, schedule: seq<Tid>)
    requires Inv(s, all)
    ensures Inv(Run(s, schedule), all)
    decreases |schedule|
  {
    hide Step, Inv;
    if schedule != [] {
      if Step(s, schedule[0]).Some? {
        StepKeepsInv(s, schedule[0], all);
      }
      RunKeepsInv(Next(s, schedule[0]), all, schedule[1..]);
    }
  }

  // ----- what callers of GetConnection() see -----

  /**
   front() is never taken of an empty list, the counters are right whenever the lock is free, and its holder is
   never blocked.
  */
  lemma PoolIsSound(s: Pool, schedule: seq<Tid>, t: Tid)
    requires Initial(s)
    ensures var r := Run(s, schedule);
      && (t in r.phase && r.phase[t].Locked? ==> r.list != [])
      && (r.holder == None ==> r.free == |r.list| && r.free + r.cur == r.maxConn)
      && (r.holder.Some? ==> Step(r, r.holder.value).Some?)
      && ConnectionsConserved(r, All(s))
  {
    InitialInv(s);
    RunKeepsInv(s, All(s), schedule);
    var r := Run(s, schedule);
    assert forall u | u in r.phase && r.phase[u].Locked? :: u in Members(r.phase, Granted);
  }

  lemma {:induction false} SameThreads(s: Pool, schedule: seq<Tid>)
    ensures Run(s, schedule).phase.Keys == s.phase.Keys && Run(s, schedule).maxConn == s.maxConn
    decreases |schedule|
  {
    if schedule != [] {
      SameThreads(Next(s, schedule[0]), schedule[1..]);
    }
  }

  /** A thread that has no connection leaves at least one for itself if there are no more threads than connections. */
  lemma OneIsLeft(s: Pool, t: Tid)
    requires SemaphoreConserved(s) && t in s.phase && (s.phase[t].Idle? || s.phase[t].Checked? || s.phase[t].GotNull?)
    requires |s.phase| <= s.maxConn
    ensures s.list != [] && s.reserve > 0
  {
    hide Owner, Granted, Owing;
    var owner, granted, owing := Members(s.phase, Owner), Members(s.phase, Granted), Members(s.phase, Owing);
    OneRole(s.phase);
    NoRole(s.phase, t);
    assert |owner + granted + owing| == |owner| + |granted| + |owing|;
    SmallerSet(owner + granted + owing, s.phase.Keys - {t});
    assert |s.phase.Keys - {t}| == |s.phase| - 1;
  }

  lemma OneRole(phase: map<Tid, Phase>)
    ensures Members(phase, Owner) !! Members(phase, Granted) !! Members(phase, Owing)
  {
  }

  lemma NoRole(phase: map<Tid, Phase>, t: Tid)
    requires t in phase && (phase[t].Idle? || phase[t].Checked? || phase[t].GotNull?)
    ensures t !in Members(phase, Owner) && t !in Members(phase, Granted) && t !in Members(phase, Owing)
  {
  }

  lemma {:induction false} SmallerSet(a: set<Tid>, b: set<Tid>)
    requires a <= b
    ensures |a| <= |b|
  {
    assert b == a + (b - a);
  }

  lemma HasMore(a: set<Tid>, b: set<Tid>)
    requires |a| > |b|
    ensures a - b != {}
  {
    assert a == (a * b) + (a - b);
    SmallerSet(a * b, b);
  }

  ghost predicate NobodyGotNull(s: Pool) {
    forall t | t in s.phase :: !s.phase[t].GotNull?
  }

  lemma {:induction false} NeverNull(s: Pool, schedule: seq<Tid>)
    requires SemaphoreConserved(s) && NobodyGotNull(s) && |s.phase| <= s.maxConn
    ensures SemaphoreConserved(Run(s, schedule)) && NobodyGotNull(Run(s, schedule))
    decreases |schedule|
  {
    if schedule != [] {
      var t := schedule[0];
      if Step(s, t).Some? {
        StepConservesSemaphore(s, t);
        if s.phase[t].Idle? {
          OneIsLeft(s, t);
        }
        KeysAfterMove(s.phase, t, Step(s, t).value.phase[t]);
      }
      NeverNull(Next(s, t), schedule[1..]);
    }
  }

  lemma KeysAfterMove(phase: map<Tid, Phase>, t: Tid, p: Phase)
    requires t in phase
    ensures |phase[t := p]| == |phase|
  {
    assert phase[t := p].Keys == phase.Keys;
  }

  /**
   With no more threads than connections, in every run GetConnection() neither returns NULL nor blocks:
   a thread that calls it finds the list non-empty and the semaphore positive.
  */
  lemma NoStarvation(s: Pool, schedule: seq<Tid>, t: Tid)
    requires Initial(s) && |s.phase| <= s.maxConn
    ensures var r := Run(s, schedule);
      && (t in r.phase ==> !r.phase[t].GotNull?)
      && (t in r.phase && (r.phase[t].Idle? || r.phase[t].Checked?) ==>
            r.list != [] && r.reserve > 0 && Step(r, t).Some?)
  {
    InitialInv(s);
    NeverNull(s, schedule);
    SameThreads(s, schedule);
    var r := Run(s, schedule);
    assert |r.phase| == |r.phase.Keys| == |s.phase.Keys| == |s.phase|;
    if t in r.phase && (r.phase[t].Idle? || r.phase[t].Checked?) {
      OneIsLeft(r, t);
    }
  }

  // ----- one thread alone -----

  lemma {:induction false} RunAppend(s: Pool, first: seq<Tid>, second: seq<Tid>)
    ensures Run(s, first + second) == Run(Run(s, first), second)
    decreases |first|
  {
    hide Next;
    if first == [] {
      assert first + second == second;
    } else {
      assert (first + second)[1..] == first[1..] + second;
      RunAppend(Next(s, first[0]), first[1..], second);
    }
  }

  lemma RunTwo(s: Pool, t: Tid)
    ensures Run(s, [t, t]) == Next(Next(s, t), t)
  {
    hide Next;
    assert [t, t] == [t] + [t];
    RunAppend(s, [t], [t]);
    RunOne(s, t);
    RunOne(Next(s, t), t);
  }

  /** GetConnection() by thread `t`, not interrupted: the first connection of the list */
  function Acquired(s: Pool, t: Tid): Pool
    requires s.list != [] && s.reserve > 0
  {
    s.(list := s.list[1..], reserve := s.reserve - 1, free := s.free - 1, cur := s.cur + 1,
       phase := s.phase[t := Holding(s.list[0])])
  }

  /** What is left of the call once the thread has seen a non-empty list, if it is not interrupted */
  lemma AcquireAlone(s: Pool, t: Tid)
    requires t in s.phase && s.phase[t].Checked? && s.holder == None && s.list != [] && s.reserve > 0
    ensures Run(s, [t] + ([t, t] + [t, t])) == Acquired(s, t)
  {
    hide Run;
    var s1 := s.(reserve := s.reserve - 1, phase := s.phase[t := Admitted]);
    var s3 := s1.(list := s.list[1..], holder := Some(t), phase := s.phase[t := Taken(s.list[0])]);
    assert Next(s, t).phase == s1.phase;
    assert Next(Next(s1, t), t).phase == s3.phase;
    assert Next(Next(s3, t), t).phase == Acquired(s, t).phase;
    RunOne(s, t);
    RunTwo(s1, t);
    RunTwo(s3, t);
    RunAppend(s, [t], [t, t] + [t, t]);
    RunAppend(s1, [t, t], [t, t]);
  }

  function GetSchedule(t: Tid): seq<Tid> {
    [t] + ([t] + ([t, t] + [t, t]))
  }

  /** The whole call */
  lemma GetAlone(s: Pool, t: Tid)
    requires t in s.phase && s.phase[t].Idle? && s.holder == None && s.list != [] && s.reserve > 0
    ensures Run(s, GetSchedule(t)) == Acquired(s, t)
  {
    hide Run;
    var s1 := s.(phase := s.phase[t := Checked]);
    RunOne(s, t);
    RunAppend(s, [t], [t] + ([t, t] + [t, t]));
    AcquireAlone(s1, t);
    assert Acquired(s1, t).phase == Acquired(s, t).phase;
  }

  /** ReleaseConnection() by thread `t`, not interrupted: the connection goes to the end of the list */
  function Released(s: Pool, t: Tid): Pool
    requires t in s.phase && s.phase[t].Holding?
  {
    s.(list := s.list + [s.phase[t].con], reserve := s.reserve + 1, free := s.free + 1, cur := s.cur - 1,
       phase := s.phase[t := Idle])
  }

  lemma ReleaseAlone(s: Pool, t: Tid)
    requires t in s.phase && s.phase[t].Holding? && s.holder == None
    ensures Run(s, [t, t] + [t, t] + [t]) == Released(s, t)
  {
    hide Run;
    var s2 := s.(list := s.list + [s.phase[t].con], holder := Some(t), phase := s.phase[t := Returned]);
    var s4 := s2.(free := s.free + 1, cur := s.cur - 1, holder := None, phase := s.phase[t := Posting]);
    assert Next(Next(s, t), t).phase == s2.phase;
    assert Next(Next(s2, t), t).phase == s4.phase;
    assert Next(s4, t).phase == Released(s, t).phase;
    RunTwo(s, t);
    RunTwo(s2, t);
    RunAppend(s, [t, t], [t, t]);
    RunAppend(s, [t, t] + [t, t], [t]);
    RunOne(s4, t);
  }

  lemma RunOne(s: Pool, t: Tid)
    ensures Run(s, [t]) == Next(s, t) && Run(s, []) == s
  {
    hide Next;
    assert [t][1..] == [];
  }

  // ----- exactly when a thread can get NULL -----

  /** `k` threads hold a connection and the others are idle. */
  ghost predicate Drained(s: Pool, k: nat) {
    && SemaphoreConserved(s) && s.holder == None
    && (forall t | t in s.phase :: s.phase[t].Idle? || s.phase[t].Holding?)
    && |Members(s.phase, Owner)| == k
  }

  lemma IdleThread(s: Pool, k: nat) returns (t: Tid)
    requires Drained(s, k) && k < |s.phase|
    ensures t in s.phase && s.phase[t].Idle?
    ensures |s.list| == s.reserve == s.maxConn - k
  {
    var owners := Members(s.phase, Owner);
    assert Members(s.phase, Granted) == {} && Members(s.phase, Owing) == {};
    assert |s.phase.Keys| == |s.phase|;
    HasMore(s.phase.Keys, owners);
    t :| t in s.phase.Keys - owners;
  }

  lemma {:induction false} DrainedIsReached(s: Pool, k: nat)
    requires Initial(s) && k <= s.maxConn && k < |s.phase|
    ensures exists schedule :: Drained(Run(s, schedule), k)
  {
    hide Step;
    if k == 0 {
      InitialInv(s);
      assert Members(s.phase, Owner) == {};
      RunOne(s, 0);
      assert Drained(Run(s, []), 0);
    } else {
      DrainedIsReached(s, k - 1);
      var schedule :| Drained(Run(s, schedule), k - 1);
      SameThreads(s, schedule);
      var r := Run(s, schedule);
      assert |r.phase| == |r.phase.Keys| == |s.phase.Keys| == |s.phase|;
      var t := IdleThread(r, k - 1);
      DrainOne(r, k - 1, t);
      RunAppend(s, schedule, GetSchedule(t));
      assert Drained(Run(s, schedule + GetSchedule(t)), k);
    }
  }

  lemma DrainOne(s: Pool, k: nat, t: Tid)
    requires Drained(s, k) && t in s.phase && s.phase[t].Idle? && |s.list| == s.reserve > 0
    ensures Drained(Run(s, GetSchedule(t)), k + 1)
  {
    hide Run;
    GetAlone(s, t);
    var p := Holding(s.list[0]);
    MoveCounts(s.phase, t, p, Owner);
    MoveCounts(s.phase, t, p, Granted);
    MoveCounts(s.phase, t, p, Owing);
  }

  /** GetConnection() can return NULL in some run if and only if there are more threads than connections. */
  lemma NullExactlyWhenOutnumbered(s: Pool)
    requires Initial(s)
    ensures (exists schedule, t :: t in Run(s, schedule).phase && Run(s, schedule).phase[t].GotNull?) <==>
      |s.phase| > s.maxConn
  {
    if |s.phase| > s.maxConn {
      DrainedIsReached(s, s.maxConn);
      var schedule :| Drained(Run(s, schedule), s.maxConn);
      SameThreads(s, schedule);
      var r := Run(s, schedule);
      assert |r.phase| == |r.phase.Keys| == |s.phase.Keys| == |s.phase|;
      var t := IdleThread(r, s.maxConn);
      RunAppend(s, schedule, [t]);
      RunOne(r, t);
      assert Run(s, schedule + [t]).phase[t].GotNull?;
    } else {
      forall schedule, t | t in Run(s, schedule).phase ensures !Run(s, schedule).phase[t].GotNull? {
        NoStarvation(s, schedule, t);
      }
    }
  }

  // ----- whole calls, one after another -----

  /** A call of GetConnection(), the rest of one that has been waiting, or a call of ReleaseConnection() */
  datatype Call = Gets(t: Tid) | Resumes(t: Tid) | Releases(t: Tid, con: Option<Con>)

  predicate CanCall(s: Pool, c: Call) {
    && s.holder == None && c.t in s.phase
    && match c
       case Gets(t) => s.phase[t].Idle?
       case Resumes(t) => s.phase[t].Checked?
       case Releases(t, con) => if con == None then s.phase[t].GotNull? else s.phase[t] == Holding(con.value)
  }

  /** The test for an empty list; a thread that passes it may have to wait. */
  function Looked(s: Pool, t: Tid): Pool {
    Move(s, t, if s.list == [] then GotNull else Checked)
  }

  /** The rest of GetConnection(), if there is a unit and a connection */
  function PastWait(s: Pool, t: Tid): Pool {
    if s.list != [] && s.reserve > 0 then Acquired(s, t) else s
  }

  function Called(s: Pool, c: Call): Pool
    requires CanCall(s, c)
  {
    match c
    case Gets(t) => if s.list == [] then Looked(s, t) else PastWait(Looked(s, t), t)
    case Resumes(t) => PastWait(s, t)
    case Releases(t, con) => if con == None then Move(s, t, Idle) else Released(s, t)
  }

  predicate CanCallAll(s: Pool, calls: seq<Call>)
    decreases |calls|
  {
    calls == [] || (CanCall(s, calls[0]) && CanCallAll(Called(s, calls[0]), calls[1..]))
  }

  function CalledAll(s: Pool, calls: seq<Call>): Pool
    requires CanCallAll(s, calls)
    decreases |calls|
  {
    if calls == [] then s else CalledAll(Called(s, calls[0]), calls[1..])
  }

  ghost predicate Reachable(s: Pool, r: Pool) {
    exists schedule :: Run(s, schedule) == r
  }

  lemma ReachableOn(s: Pool, r: Pool, end: Pool)
    requires Reachable(s, r) && Reachable(r, end)
    ensures Reachable(s, end)
  {
    var first :| Run(s, first) == r;
    var second :| Run(r, second) == end;
    RunAppend(s, first, second);
  }

  lemma LookedIsRun(s: Pool, t: Tid)
    requires t in s.phase && s.phase[t].Idle?
    ensures Reachable(s, Looked(s, t))
  {
    RunOne(s, t);
    assert Run(s, [t]) == Looked(s, t);
  }

  lemma AdmittedIsRun(s: Pool, t: Tid)
    requires t in s.phase && s.phase[t].Checked? && s.holder == None
    ensures Reachable(s, PastWait(s, t))
  {
    if s.list != [] && s.reserve > 0 {
      AcquireAlone(s, t);
    } else {
      RunOne(s, t);
      assert Run(s, []) == s;
    }
  }

  /** A whole call is a run of its statements. */
  lemma CalledIsRun(s: Pool, c: Call)
    requires CanCall(s, c)
    ensures Reachable(s, Called(s, c)) && Called(s, c).holder == None
  {
    match c
    case Gets(t) =>
      LookedIsRun(s, t);
      if s.list != [] {
        AdmittedIsRun(Looked(s, t), t);
        ReachableOn(s, Looked(s, t), Called(s, c));
      }
    case Resumes(t) => AdmittedIsRun(s, t);
    case Releases(t, con) =>
      if con == None {
        RunOne(s, t);
        assert Run(s, [t]) == Called(s, c);
      } else {
        ReleaseAlone(s, t);
      }
  }

  lemma {:induction false} CallsAreRun(s: Pool, calls: seq<Call>)
    requires CanCallAll(s, calls)
    ensures Reachable(s, CalledAll(s, calls))
    decreases |calls|
  {
    hide Called, CanCall;
    if calls == [] {
      RunOne(s, 0);
      assert Run(s, []) == s;
    } else {
      CalledIsRun(s, calls[0]);
      CallsAreRun(Called(s, calls[0]), calls[1..]);
      ReachableOn(s, Called(s, calls[0]), CalledAll(s, calls));
    }
  }

  /** The invariant holds wherever a run leads. */
  lemma ReachableInv(s: Pool, r: Pool, all: set<Con>)
    requires Inv(s, all) && Reachable(s, r)
    ensures Inv(r, all)
  {
    var schedule :| Run(s, schedule) == r;
    RunKeepsInv(s, all, schedule);
  }

  /** The other threads do not touch the phase of `t`. */
  lemma {:induction false} OthersLeave(s: Pool, calls: seq<Call>, t: Tid)
    requires CanCallAll(s, calls) && t in s.phase && s.holder == None
    requires forall i | 0 <= i < |calls| :: calls[i].t != t
    ensures var r := CalledAll(s, calls); t in r.phase && r.phase[t] == s.phase[t] && r.holder == None
    decreases |calls|
  {
    if calls != [] {
      CalledIsRun(s, calls[0]);
      OthersLeave(Called(s, calls[0]), calls[1..], t);
    }
  }

  datatype Got = NoConnection | Connection(con: Con) | Waiting

  /**
   GetConnection() by `t`, while the other threads make the calls `others` between its test and the end of its
   wait
  */
  function GetsAmong(s: Pool, t: Tid, others: seq<Call>): (Got, Pool)
    requires s.list != [] ==> CanCallAll(Looked(s, t), others)
  {
    if s.list == [] then (NoConnection, Looked(s, t))
    else
      var r := CalledAll(Looked(s, t), others);
      if r.list != [] && r.reserve > 0 then (Connection(r.list[0]), Acquired(r, t)) else (Waiting, r)
  }

  /**
   Such a call is a run of the step system; it takes the first connection if there is one, and waits only without
   one.
  */
  lemma GetsIsRun(s: Pool, t: Tid, others: seq<Call>, all: set<Con>)
    requires Inv(s, all) && s.holder == None && t in s.phase && s.phase[t].Idle?
    requires forall i | 0 <= i < |others| :: others[i].t != t
    requires s.list != [] ==> CanCallAll(Looked(s, t), others)
    ensures var (got, r) := GetsAmong(s, t, others);
      && Reachable(s, r) && Inv(r, all) && r.holder == None && t in r.phase
      && match got
         case NoConnection => s.list == [] && r.phase[t].GotNull?
         case Connection(con) => r.phase[t] == Holding(con)
         case Waiting => r.phase[t].Checked? && r.reserve == 0
  {
    hide Inv, Called, CanCall, CalledAll, Step, Reachable;
    LookedIsRun(s, t);
    var (got, r) := GetsAmong(s, t, others);
    if s.list != [] {
      var l := Looked(s, t);
      var c := CalledAll(l, others);
      CallsAreRun(l, others);
      OthersLeave(l, others, t);
      ReachableOn(s, l, c);
      AdmittedIsRun(c, t);
      ReachableOn(s, c, PastWait(c, t));
      ReachableInv(s, c, all);
      if c.reserve > 0 {
        UnitMeansConnection(c);
      }
    }
    ReachableInv(s, r, all);
  }

  lemma UnitMeansConnection(s: Pool)
    requires SemaphoreConserved(s) && s.reserve > 0
    ensures s.list != []
  {
  }

  // ----- the pool as an object -----

  class ConnectionPool {
    var connList: seq<Con>
    var reserve: nat
    var freeConn: nat
    var curConn: nat
    var maxConn: nat
    ghost var holder: Option<Tid>
    ghost var phase: map<Tid, Phase>

    ghost function View(): Pool
      reads this
    {
      Pool(connList, reserve, freeConn, curConn, maxConn, holder, phase)
    }

    constructor (ghost threads: map<Tid, Phase>)
      requires forall t | t in threads :: threads[t].Idle?
      ensures freeConn == 0 && curConn == 0 && connList == [] && holder == None && phase == threads
    {
      connList, reserve, freeConn, curConn, maxConn := [], 0, 0, 0, 0;
      holder, phase := None, threads;
    }

    /** init(), with the connections that the database opens */
    method Init(connected: seq<Con>)
      requires freeConn == 0 && curConn == 0 && connList == [] && holder == None
      requires forall t | t in phase :: phase[t].Idle?
      requires forall i, j | 0 <= i < j < |connected| :: connected[i] != connected[j]
      modifies this
      ensures Initial(View()) && connList == connected && phase == old(phase)
    {
      var i := 0;
      while i < |connected|
        invariant 0 <= i <= |connected| && connList == connected[..i] && freeConn == i
        invariant curConn == 0 && holder == None && phase == old(phase)
      {
        connList := connList + [connected[i]];
        freeConn := freeConn + 1;
        i := i + 1;
      }
      reserve := freeConn;
      maxConn := freeConn;
    }

    /** GetConnection() by thread `t`; the other threads make whole calls until its wait ends. */
    method GetConnection(ghost t: Tid, ghost all: set<Con>, others: seq<Call>) returns (got: Got)
      requires Inv(View(), all) && t in phase && phase[t].Idle? && holder == None
      requires forall i | 0 <= i < |others| :: others[i].t != t
      requires connList != [] ==> CanCallAll(Looked(View(), t), others)
      modifies this
      ensures (got, View()) == GetsAmong(old(View()), t, others) && Inv(View(), all)
    {
      hide Inv, CanCallAll, CalledAll, Acquired;
      GetsIsRun(View(), t, others, all);
      LookedIsRun(View(), t);
      ReachableInv(View(), Looked(View(), t), all);
      if |connList| == 0 {
        phase := phase[t := GotNull];
        return NoConnection;
      }
      phase := phase[t := Checked];
      OthersLeave(View(), others, t);
      Perform(all, others);
      if reserve == 0 {
        return Waiting;
      }
      var con := TakeFront(t, all);
      return Connection(con);
    }

    /** What follows the wait */
    method TakeFront(ghost t: Tid, ghost all: set<Con>) returns (con: Con)
      requires Inv(View(), all) && t in phase && phase[t].Checked? && holder == None && reserve > 0
      modifies this
      ensures old(connList) != [] && con == old(connList)[0] && View() == Acquired(old(View()), t)
    {
      UnitMeansConnection(View());
      reserve := reserve - 1;
      con := connList[0];
      connList := connList[1..];
      freeConn := freeConn - 1;
      curConn := curConn + 1;
      phase := phase[t := Holding(con)];
    }

    /** The other threads at work */
    method Perform(ghost all: set<Con>, calls: seq<Call>)
      requires Inv(View(), all) && CanCallAll(View(), calls)
      modifies this
      ensures View() == CalledAll(old(View()), calls) && Inv(View(), all)
    {
      hide Inv, Called, CanCall;
      var i := 0;
      assert calls[0..] == calls;
      while i < |calls|
        invariant 0 <= i <= |calls| && Inv(View(), all) && CanCallAll(View(), calls[i..])
        invariant CalledAll(View(), calls[i..]) == CalledAll(old(View()), calls)
      {
        assert calls[i..][0] == calls[i] && calls[i..][1..] == calls[i + 1..];
        PerformOne(all, calls[i]);
        i := i + 1;
      }
    }

    method PerformOne(ghost all: set<Con>, call: Call)
      requires Inv(View(), all) && CanCall(View(), call)
      modifies this
      ensures View() == Called(old(View()), call) && Inv(View(), all)
    {
      hide Inv, Acquired, Released;
      CalledIsRun(View(), call);
      ReachableInv(View(), Called(View(), call), all);
      match call {
        case Gets(t) =>
          LookedIsRun(View(), t);
          ReachableInv(View(), Looked(View(), t), all);
          if |connList| == 0 {
            phase := phase[t := GotNull];
          } else {
            phase := phase[t := Checked];
            if reserve > 0 {
              var _ := TakeFront(t, all);
            }
          }
        case Resumes(t) =>
          if reserve > 0 {
            var _ := TakeFront(t, all);
          }
        case Releases(t, con) =>
          var _ := ReleaseConnection(t, all, con);
      }
    }

    /** ReleaseConnection(), run by thread `t` without interruption */
    method ReleaseConnection(ghost t: Tid, ghost all: set<Con>, con: Option<Con>) returns (ok: bool)
      requires Inv(View(), all) && CanCall(View(), Releases(t, con))
      modifies this
      ensures ok <==> con.Some?
      ensures View() == Called(old(View()), Releases(t, con)) && Inv(View(), all)
      ensures ok ==> connList == old(connList) + [con.value]
    {
      CalledIsRun(View(), Releases(t, con));
      ReachableInv(View(), Called(View(), Releases(t, con)), all);
      hide Reachable;
      if con == None {
        phase := phase[t := Idle];
        return false;
      }
      OwnerIsCounted(View(), t);
      connList := connList + [con.value];
      freeConn := freeConn + 1;
      curConn := curConn - 1;
      reserve := reserve + 1;
      phase := phase[t := Idle];
      return true;
    }
  }

  /** CurConn, an unsigned number, does not drop below zero. */
  lemma OwnerIsCounted(s: Pool, t: Tid)
    requires SemaphoreConserved(s) && CountersRight(s) && s.holder == None && t in s.phase && Owner(s.phase[t])
    ensures s.cur > 0
  {
    assert t in Members(s.phase, Owner);
  }
}
