/**
 The asynchronous log of log.cpp and log.h: any number of threads in write_log, the ring of block_queue.h
 and the consumer thread, one critical section at a time. As coded, write_log asks the queue whether it is
 full and then pushes, in two separate critical sections, and ignores the result of the push.
*/
module AsyncLog {
  import opened Wrappers
  import opened BlockQueue
  import opened Counting

  type Line = seq<char>

  /** A thread outside write_log, before the test of the queue, before its push, or before its direct write */
  datatype Producer = AtRest | Formatted(line: Line) | Queueing(line: Line) | Writing(line: Line)

  /** A line in the file, written by the consumer or directly by write_log */
  datatype Entry = FromQueue(line: Line) | Direct(line: Line)

  /** `completed` are the lines whose write_log has returned, `accepted` the pushed ones, `lost` the refused ones. */
  datatype Log = Log(
    ring: Ring<Line>,
    producers: map<Tid, Producer>,
    hand: Option<Line>,
    file: seq<Entry>,
    completed: seq<Line>,
    accepted: seq<Line>,
    lost: seq<Line>)

  datatype Action =
    | Call(t: Tid, line: Line) // write_log, up to the formatted line
    | Continue(t: Tid)         // the next critical section of write_log
    | ConsumerPops             // pop() returns a line
    | ConsumerWrites           // fputs of that line

  function Act(s: Log, a: Action): Log
    requires Valid(s.ring)
  {
    match a
    case Call(t, line) =>
      if t in s.producers && s.producers[t] == AtRest then s.(producers := s.producers[t := Formatted(line)]) else s
    case Continue(t) =>
      if t !in s.producers then s
      else
        (match s.producers[t]
         case AtRest => s
         case Formatted(line) =>
           s.(producers := s.producers[t := if s.ring.size >= |s.ring.slots| then Writing(line) else Queueing(line)])
         case Queueing(line) =>
           var (ok, ring) := PushRing(s.ring, line);
           s.(producers := s.producers[t := AtRest], completed := s.completed + [line], ring := ring,
              accepted := if ok then s.accepted + [line] else s.accepted,
              lost := if ok then s.lost else s.lost + [line])
         case Writing(line) =>
           s.(producers := s.producers[t := AtRest], completed := s.completed + [line],
             file := s.file + [Direct(line)]))
    case ConsumerPops =>
      if s.hand.Some? || s.ring.size <= 0 then s
      else s.(hand := PopRing(s.ring).0, ring := PopRing(s.ring).1)
    case ConsumerWrites =>
      if s.hand == None then s else s.(hand := None, file := s.file + [FromQueue(s.hand.value)])
  }

  function Lines(file: seq<Entry>): seq<Line> {
    seq(|file|, i requires 0 <= i < |file| => file[i].line)
  }

  /** The lines that came through the queue, in the order of the file */
  function Queued(file: seq<Entry>): seq<Line> {
    if file == [] then []
    else Queued(file[..|file| - 1]) + if file[|file| - 1].FromQueue? then [file[|file| - 1].line] else []
  }

  function InHand(s: Log): seq<Line> {
    if s.hand.Some? then [s.hand.value] else []
  }

  /**
   Every completed line is in the file, in the queue, in the consumer's hand, or was refused; none is anywhere
   else.
  */
  ghost predicate Conserved(s: Log)
    requires Valid(s.ring)
  {
    multiset(s.completed) ==
      multiset(Lines(s.file)) + multiset(Contents(s.ring)) + multiset(InHand(s)) + multiset(s.lost)
  }

  /** Accepted lines reach the file in the order in which they were accepted. */
  ghost predicate InOrder(s: Log)
    requires Valid(s.ring)
  {
    s.accepted == Queued(s.file) + InHand(s) + Contents(s.ring)
  }

  ghost predicate Inv(s: Log) {
    Valid(s.ring) && Conserved(s) && InOrder(s)
  }

  /** A log that has just been opened */
  ghost predicate Initial(s: Log) {
    && Valid(s.ring) && Contents(s.ring) == [] && s.hand == None && s.file == []
    && s.completed == [] && s.accepted == [] && s.lost == []
    && forall t | t in s.producers :: s.producers[t] == AtRest
  }

  lemma InitialInv(s: Log)
    requires Initial(s)
    ensures Inv(s)
  {
  }

  lemma WriteEntry(file: seq<Entry>, e: Entry)
    ensures Lines(file + [e]) == Lines(file) + [e.line]
    ensures Queued(file + [e]) == Queued(file) + if e.FromQueue? then [e.line] else []
  {
    assert (file + [e])[..|file|] == file;
  }

  /** A line that is completed and shows up in the queue, or among the lost, keeps the balance. */
  lemma BalanceKept(completed: seq<Line>, file: multiset<Line>, queue: seq<Line>, hand: multiset<Line>,
    lost: seq<Line>, line: Line)
    requires multiset(completed) == file + multiset(queue) + hand + multiset(lost)
    ensures multiset(completed + [line]) == file + multiset(queue + [line]) + hand + multiset(lost)
    ensures multiset(completed + [line]) == file + multiset(queue) + hand + multiset(lost + [line])
  {
  }

  lemma FileBalance(completed: seq<Line>, file: seq<Line>, rest: multiset<Line>, line: Line)
    requires multiset(completed) == multiset(file) + rest
    ensures multiset(completed + [line]) == multiset(file + [line]) + rest
  {
  }

  lemma PushConserves(s: Log, t: Tid)
    requires Inv(s) && t in s.producers && s.producers[t].Queueing?
    ensures Inv(Act(s, Continue(t)))
  {
    hide PushRing, Contents, Lines, Queued, InHand;
    var line := s.producers[t].line;
    var next := Act(s, Continue(t));
    PushAppends(s.ring, line);
    BalanceKept(s.completed, multiset(Lines(s.file)), Contents(s.ring), multiset(InHand(s)), s.lost, line);
    SameHand(s, next);
    var before := Queued(s.file) + InHand(s);
    assert before + (Contents(s.ring) + [line]) == before + Contents(s.ring) + [line];
  }

  lemma SameHand(s: Log, t: Log)
    requires s.hand == t.hand
    ensures InHand(s) == InHand(t)
  {
  }

  lemma DirectConserves(s: Log, t: Tid)
    requires Inv(s) && t in s.producers && s.producers[t].Writing?
    ensures Inv(Act(s, Continue(t)))
  {
    hide Lines, Queued, Contents, InHand;
    var line := s.producers[t].line;
    WriteEntry(s.file, Direct(line));
    FileBalance(s.completed, Lines(s.file), multiset(Contents(s.ring)) + multiset(InHand(s)) + multiset(s.lost), line);
    SameHand(s, Act(s, Continue(t)));
  }

  lemma PopConserves(s: Log)
    requires Inv(s)
    ensures Inv(Act(s, ConsumerPops))
  {
    hide PopRing, Contents, Lines, Queued;
    PopTakesFirst(s.ring);
    if s.hand == None && Contents(s.ring) != [] {
      assert Contents(s.ring) == [Contents(s.ring)[0]] + Contents(s.ring)[1..];
    }
  }

  lemma WriteConserves(s: Log)
    requires Inv(s)
    ensures Inv(Act(s, ConsumerWrites))
  {
    hide Lines, Queued, Contents;
    if s.hand.Some? {
      WriteEntry(s.file, FromQueue(s.hand.value));
    }
  }

  lemma ActShape(s: Log, a: Action)
    requires Valid(s.ring)
    ensures Valid(Act(s, a).ring) && |Act(s, a).ring.slots| == |s.ring.slots|
    ensures Act(s, a).producers.Keys == s.producers.Keys
  {
    hide PushRing, PopRing, Contents;
    PopTakesFirst(s.ring);
    if a.Continue? && a.t in s.producers && s.producers[a.t].Queueing? {
      PushAppends(s.ring, s.producers[a.t].line);
    }
  }

  lemma ActKeepsInv(s: Log, a: Action)
    requires Inv(s)
    ensures Inv(Act(s, a))
  {
    if a.ConsumerPops? {
      PopConserves(s);
    } else if a.ConsumerWrites? {
      WriteConserves(s);
    } else if a.Continue? && a.t in s.producers && s.producers[a.t].Queueing? {
      PushConserves(s, a.t);
    } else if a.Continue? && a.t in s.producers && s.producers[a.t].Writing? {
      DirectConserves(s, a.t);
    }
  }

  ghost function Run(s: Log, actions: seq<Action>): (r: Log)
    requires Inv(s)
    ensures Inv(r)
    decreases |actions|
  {
    if actions == [] then s
    else
      ActKeepsInv(s, actions[0]);
      Run(Act(s, actions[0]), actions[1..])
  }

  /** In every run no completed line disappears except by a refused push, and accepted lines keep their order. */
  lemma LinesConserved(s: Log, actions: seq<Action>)
    requires Initial(s)
    ensures Inv(s) && Inv(Run(s, actions))
    ensures Queued(Run(s, actions).file) <= Run(s, actions).accepted
  {
    InitialInv(s);
  }

  // ----- what is queued can always be written -----

  lemma {:induction false} RunAppend(s: Log, first: seq<Action>, second: seq<Action>)
    requires Inv(s)
    ensures Run(s, first + second) == Run(Run(s, first), second)
    decreases |first|
  {
    hide Act, Conserved, InOrder, Contents;
    if first == [] {
      assert first + second == second;
    } else {
      assert (first + second)[1..] == first[1..] + second;
      ActKeepsInv(s, first[0]);
      RunAppend(Act(s, first[0]), first[1..], second);
    }
  }

  lemma RunOne(s: Log, a: Action)
    requires Inv(s)
    ensures Inv(Act(s, a)) && Run(s, [a]) == Act(s, a)
  {
    hide Act, Conserved, InOrder, Contents;
    ActKeepsInv(s, a);
    assert [a][1..] == [];
  }

  /** Lines that have come through the queue, as they are in the file */
  function Written(lines: seq<Line>): (entries: seq<Entry>)
    ensures |entries| == |lines|
  {
    seq(|lines|, i requires 0 <= i < |lines| => FromQueue(lines[i]))
  }

  lemma WrittenFirst(line: Line, rest: seq<Line>)
    ensures Written([line] + rest) == [FromQueue(line)] + Written(rest)
    ensures Written([line]) == [FromQueue(line)] && Written([]) == []
  {
  }

  /** The queue and the consumer's hand after the steps `actions`, and the file, if everything is written */
  ghost predicate Drains(s: Log, actions: seq<Action>) {
    && Inv(s)
    && (forall i | 0 <= i < |actions| :: actions[i].ConsumerPops? || actions[i].ConsumerWrites?)
    && var r := Run(s, actions);
    && r.file == s.file + Written(InHand(s) + Contents(s.ring)) && r.hand == None && Contents(r.ring) == []
    && r.producers == s.producers && r.completed == s.completed && r.accepted == s.accepted && r.lost == s.lost
  }

  lemma WriteHand(s: Log)
    requires Inv(s) && s.hand.Some?
    ensures Inv(Act(s, ConsumerWrites))
    ensures Act(s, ConsumerWrites) == s.(hand := None, file := s.file + [FromQueue(s.hand.value)])
  {
    ActKeepsInv(s, ConsumerWrites);
  }

  lemma TakeFirstLine(s: Log)
    requires Inv(s) && s.hand == None && Contents(s.ring) != []
    ensures var t := Act(s, ConsumerPops);
      && Inv(t) && t == s.(hand := Some(Contents(s.ring)[0]), ring := t.ring)
      && Contents(s.ring) == [Contents(s.ring)[0]] + Contents(t.ring)
  {
    hide PopRing, Contents, Conserved, InOrder;
    ActKeepsInv(s, ConsumerPops);
    PopTakesFirst(s.ring);
  }

  lemma {:induction false} DrainEmpty(s: Log) returns (actions: seq<Action>)
    requires Inv(s) && s.hand == None
    ensures Drains(s, actions)
    decreases |Contents(s.ring)|
  {
    hide Act, Conserved, InOrder, Contents, Written;
    if Contents(s.ring) == [] {
      actions := [];
      WrittenFirst([], []);
      assert InHand(s) + Contents(s.ring) == [];
      assert s.file + [] == s.file;
    } else {
      TakeFirstLine(s);
      var t := Act(s, ConsumerPops);
      WriteHand(t);
      var w := Act(t, ConsumerWrites);
      var more := DrainEmpty(w);
      actions := [ConsumerPops] + ([ConsumerWrites] + more);
      RunOne(s, ConsumerPops);
      RunOne(t, ConsumerWrites);
      RunAppend(s, [ConsumerPops], [ConsumerWrites] + more);
      RunAppend(t, [ConsumerWrites], more);
      WrittenFirst(Contents(s.ring)[0], Contents(t.ring));
      assert InHand(s) + Contents(s.ring) == Contents(s.ring) && InHand(w) + Contents(w.ring) == Contents(w.ring);
      assert (s.file + [FromQueue(Contents(s.ring)[0])]) + Written(Contents(t.ring)) ==
        s.file + ([FromQueue(Contents(s.ring)[0])] + Written(Contents(t.ring)));
    }
  }

  /** From every state the consumer can bring the line in its hand and the queued lines, in order, into the file. */
  lemma ConsumerDrains(s: Log) returns (actions: seq<Action>)
    requires Inv(s)
    ensures Drains(s, actions)
  {
    hide Act, Conserved, InOrder, Contents, Written;
    if s.hand == None {
      actions := DrainEmpty(s);
    } else {
      WriteHand(s);
      var w := Act(s, ConsumerWrites);
      var more := DrainEmpty(w);
      actions := [ConsumerWrites] + more;
      RunOne(s, ConsumerWrites);
      RunAppend(s, [ConsumerWrites], more);
      WrittenFirst(s.hand.value, Contents(s.ring));
      assert InHand(w) + Contents(w.ring) == Contents(w.ring);
      assert (s.file + [FromQueue(s.hand.value)]) + Written(Contents(s.ring)) ==
        s.file + ([FromQueue(s.hand.value)] + Written(Contents(s.ring)));
    }
  }

  // ----- exactly when a line can be lost -----

  /** A thread that has seen room still has it. */
  ghost predicate RoomStays(s: Log)
    requires Valid(s.ring)
  {
    s.lost == [] && forall t | t in s.producers && s.producers[t].Queueing? :: s.ring.size < |s.ring.slots|
  }

  lemma ActKeepsRoom(s: Log, a: Action, t0: Tid)
    requires Inv(s) && RoomStays(s) && s.producers.Keys <= {t0} && Valid(Act(s, a).ring)
    ensures RoomStays(Act(s, a))
  {
    hide Contents, Lines, Queued;
    PopTakesFirst(s.ring);
    if a.Continue? && a.t in s.producers && s.producers[a.t].Queueing? {
      PushAppends(s.ring, s.producers[a.t].line);
    }
  }

  lemma {:induction false} NothingLost(s: Log, actions: seq<Action>, t0: Tid)
    requires Inv(s) && RoomStays(s) && s.producers.Keys <= {t0}
    ensures Run(s, actions).lost == []
    decreases |actions|
  {
    hide Act, Conserved, InOrder, Contents;
    if actions != [] {
      ActKeepsInv(s, actions[0]);
      ActShape(s, actions[0]);
      ActKeepsRoom(s, actions[0], t0);
      NothingLost(Act(s, actions[0]), actions[1..], t0);
    }
  }

  /**
   What a whole call of write_log leaves if no other thread comes between: the line is queued, or on a full queue
   written.
  */
  ghost predicate Logged(s: Log, r: Log, line: Line) {
    && Inv(s) && Inv(r) && r.producers == s.producers && r.hand == s.hand && r.lost == s.lost
    && r.completed == s.completed + [line]
    && if |Contents(s.ring)| < |s.ring.slots|
       then Contents(r.ring) == Contents(s.ring) + [line] && r.accepted == s.accepted + [line] && r.file == s.file
       else Contents(r.ring) == Contents(s.ring) && r.accepted == s.accepted && r.file == s.file + [Direct(line)]
  }

  lemma CallCompletes(s: Log, t: Tid, line: Line)
    requires Inv(s) && t in s.producers && s.producers[t] == AtRest
    ensures Logged(s, Run(s, [Call(t, line)] + [Continue(t)] + [Continue(t)]), line)
  {
    hide Run, Conserved, InOrder, Contents;
    RunOne(s, Call(t, line));
    var s1 := Act(s, Call(t, line));
    RunOne(s1, Continue(t));
    var s2 := Act(s1, Continue(t));
    RunOne(s2, Continue(t));
    RunAppend(s, [Call(t, line)], [Continue(t)]);
    RunAppend(s, [Call(t, line)] + [Continue(t)], [Continue(t)]);
    PushAppends(s2.ring, line);
    assert Act(s2, Continue(t)).producers == s.producers;
  }

  /** Every thread is outside write_log, and `k` lines are queued. */
  ghost predicate Holds(s: Log, k: nat, keys: set<Tid>, max: nat) {
    && Inv(s) && s.ring.size == k && |s.ring.slots| == max && s.producers.Keys == keys
    && forall t | t in s.producers :: s.producers[t] == AtRest
  }

  lemma OneLineQueued(s: Log, t: Tid, line: Line, k: nat, keys: set<Tid>, max: nat)
    requires Holds(s, k, keys, max) && t in keys && k < max
    ensures Holds(Run(s, [Call(t, line)] + [Continue(t)] + [Continue(t)]), k + 1, keys, max)
  {
    hide Run, Conserved, InOrder, Contents;
    RunOne(s, Call(t, line));
    var s1 := Act(s, Call(t, line));
    RunOne(s1, Continue(t));
    var s2 := Act(s1, Continue(t));
    RunOne(s2, Continue(t));
    RunAppend(s, [Call(t, line)], [Continue(t)]);
    RunAppend(s, [Call(t, line)] + [Continue(t)], [Continue(t)]);
    ActShape(s2, Continue(t));
    PushAppends(s2.ring, line);
  }

  lemma {:induction false} CanFill(s: Log, t: Tid, line: Line, k: nat)
    requires Initial(s) && t in s.producers && k <= |s.ring.slots|
    ensures Inv(s) && exists actions :: Holds(Run(s, actions), k, s.producers.Keys, |s.ring.slots|)
  {
    hide Act, Contents, Conserved, InOrder;
    InitialInv(s);
    if k == 0 {
      assert Run(s, []) == s && s.ring.size == |Contents(s.ring)|;
      assert Holds(Run(s, []), k, s.producers.Keys, |s.ring.slots|);
    } else {
      CanFill(s, t, line, k - 1);
      var actions :| Holds(Run(s, actions), k - 1, s.producers.Keys, |s.ring.slots|);
      OneLineQueued(Run(s, actions), t, line, k - 1, s.producers.Keys, |s.ring.slots|);
      RunAppend(s, actions, [Call(t, line)] + [Continue(t)] + [Continue(t)]);
    }
  }

  /** Two threads that both see the last free place: the second push is refused. */
  lemma RaceLoses(s: Log, t: Tid, u: Tid, line: Line, keys: set<Tid>, max: nat) returns (actions: seq<Action>)
    requires max > 0 && Holds(s, max - 1, keys, max) && t in keys && u in keys && t != u
    ensures Run(s, actions).lost == s.lost + [line]
  {
    hide Run, Conserved, InOrder, Contents;
    var c := [Call(t, line)] + [Continue(t)] + [Call(u, line)] + [Continue(u)];
    RunOne(s, Call(t, line));
    var s1 := Act(s, Call(t, line));
    RunOne(s1, Continue(t));
    var s2 := Act(s1, Continue(t));
    RunOne(s2, Call(u, line));
    var s3 := Act(s2, Call(u, line));
    RunOne(s3, Continue(u));
    var s4 := Act(s3, Continue(u));
    RunAppend(s, [Call(t, line)], [Continue(t)]);
    RunAppend(s, [Call(t, line)] + [Continue(t)], [Call(u, line)]);
    RunAppend(s, [Call(t, line)] + [Continue(t)] + [Call(u, line)], [Continue(u)]);
    assert Run(s, c) == s4;
    RunOne(s4, Continue(t));
    var s5 := Act(s4, Continue(t));
    RunOne(s5, Continue(u));
    RunAppend(s, c, [Continue(t)]);
    RunAppend(s, c + [Continue(t)], [Continue(u)]);
    actions := c + [Continue(t)] + [Continue(u)];
  }

  /** A line can be lost in some run if and only if more than one thread writes to the log. */
  lemma LossExactlyWhenRacing(s: Log)
    requires Initial(s)
    ensures Inv(s) && ((exists actions :: Run(s, actions).lost != []) <==> |s.producers| > 1)
  {
    InitialInv(s);
    if |s.producers| > 1 {
      var t :| t in s.producers;
      assert |s.producers.Keys - {t}| == |s.producers.Keys| - 1 == |s.producers| - 1;
      var u :| u in s.producers.Keys - {t};
      var max := |s.ring.slots|;
      CanFill(s, t, [], max - 1);
      var actions :| Holds(Run(s, actions), max - 1, s.producers.Keys, max);
      var race := RaceLoses(Run(s, actions), t, u, [], s.producers.Keys, max);
      RunAppend(s, actions, race);
      assert Run(s, actions + race).lost != [];
    } else {
      var t0 := if s.producers.Keys == {} then 0 else (var t :| t in s.producers.Keys; t);
      OnlyMember(s.producers.Keys, t0);
      forall actions ensures Run(s, actions).lost == [] {
        NothingLost(s, actions, t0);
      }
    }
  }

  lemma OnlyMember(keys: set<Tid>, t0: Tid)
    requires |keys| <= 1 && (keys != {} ==> t0 in keys)
    ensures keys <= {t0}
  {
    if keys != {} {
      assert keys == {t0} + (keys - {t0});
    }
  }
}
