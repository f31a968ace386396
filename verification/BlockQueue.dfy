/**
 The circular queue of block_queue.h. Its array, its size and its two indices that start at -1 are shown
 to behave as a bounded sequence, in every run of its operations and with any number of threads waiting.
*/
module BlockQueue {
  import opened Wrappers
  import opened Counting

  datatype Ring<T> = Ring(slots: seq<T>, front: int, back: int, size: int)

  /** (m + 1) % m_max_size and its iterates, for an index that has not passed the end twice */
  function At(front: int, k: int, max: int): int {
    if front + 1 + k < max then front + 1 + k else front + 1 + k - max
  }

  predicate Valid<T>(r: Ring<T>) {
    && |r.slots| > 0
    && -1 <= r.front < |r.slots| && 0 <= r.size <= |r.slots|
    && r.back == if r.size == 0 then r.front else At(r.front, r.size - 1, |r.slots|)
  }

  /** The queued elements, oldest first */
  function Contents<T>(r: Ring<T>): (s: seq<T>)
    requires Valid(r)
    ensures |s| == r.size
  {
    seq(r.size, k requires 0 <= k < r.size => r.slots[(r.front + 1 + k) % |r.slots|])
  }

  lemma AtIsModulo(front: int, k: int, max: int)
    requires max > 0 && -1 <= front < max && 0 <= k < max
    ensures (front + 1 + k) % max == At(front, k, max)
  {
    ModuloOnce(front + 1 + k, max);
  }

  lemma ModuloOnce(i: int, max: int)
    requires 0 <= i < 2 * max
    ensures i % max == if i < max then i else i - max
  {
    if i >= max {
      assert i == (i / max) * max + i % max;
      Multiples(i / max, max);
    }
  }

  lemma Multiples(q: int, max: int)
    requires max > 0
    ensures q <= 0 ==> q * max <= 0
    ensures q >= 2 ==> q * max >= 2 * max
  {
  }

  // ----- the operations on the ring -----

  function Empty<T>(slots: seq<T>): Ring<T> {
    Ring(slots, -1, -1, 0)
  }

  function PushRing<T>(r: Ring<T>, item: T): (bool, Ring<T>)
    requires Valid(r)
  {
    if r.size >= |r.slots| then (false, r)
    else
      var back := (r.back + 1) % |r.slots|;
      (true, r.(slots := r.slots[back := item], back := back, size := r.size + 1))
  }

  /** The part of both pops behind the waiting */
  function PopRing<T>(r: Ring<T>): (Option<T>, Ring<T>)
    requires Valid(r)
  {
    if r.size <= 0 then (None, r)
    else
      var front := (r.front + 1) % |r.slots|;
      (Some(r.slots[front]), r.(front := front, size := r.size - 1))
  }

  function BackRing<T>(r: Ring<T>): Option<T>
    requires Valid(r)
  {
    if r.size == 0 then None else Some(r.slots[r.back])
  }

  lemma PushAppends<T>(r: Ring<T>, item: T)
    requires Valid(r)
    ensures var (ok, r') := PushRing(r, item);
      && Valid(r') && |r'.slots| == |r.slots|
      && ok == (|Contents(r)| < |r.slots|)
      && Contents(r') == if ok then Contents(r) + [item] else Contents(r)
  {
    var max := |r.slots|;
    if r.size < max {
      ModuloOnce(r.back + 1, max);
      var r' := PushRing(r, item).1;
      assert r'.back == At(r.front, r.size, max);
      forall k | 0 <= k < r'.size ensures Contents(r')[k] == (Contents(r) + [item])[k] {
        AtIsModulo(r.front, k, max);
      }
      assert Contents(r') == Contents(r) + [item];
    }
  }

  lemma PopTakesFirst<T>(r: Ring<T>)
    requires Valid(r)
    ensures var (item, r') := PopRing(r);
      && Valid(r') && r'.slots == r.slots
      && if Contents(r) == [] then item == None && r' == r
         else item == Some(Contents(r)[0]) && Contents(r') == Contents(r)[1..]
  {
    var max := |r.slots|;
    if r.size > 0 {
      ModuloOnce(r.front + 1, max);
      var r' := PopRing(r).1;
      forall k | 0 <= k < r'.size ensures Contents(r')[k] == Contents(r)[1..][k] {
        AtIsModulo(r'.front, k, max);
        AtIsModulo(r.front, k + 1, max);
      }
      assert Contents(r') == Contents(r)[1..];
    }
  }

  lemma BackIsLast<T>(r: Ring<T>)
    requires Valid(r)
    ensures BackRing(r) == if Contents(r) == [] then None else Some(Contents(r)[r.size - 1])
  {
    if r.size > 0 {
      AtIsModulo(r.front, r.size - 1, |r.slots|);
    }
  }

  // ----- any run of operations is a run on a bounded sequence -----

  /** TryPop is either pop once its waiting is over; on an empty queue it takes nothing. */
  datatype Op<T> = DoPush(item: T) | TryPop | DoClear | AskBack | AskFull | AskEmpty | AskSize | AskMaxSize

  datatype Answer<T> = Yes | No | Item(item: Option<T>) | Number(n: int) | Done

  function YesNo<T>(b: bool): Answer<T> {
    if b then Yes else No
  }

  function RingStep<T>(r: Ring<T>, op: Op<T>): (Answer<T>, Ring<T>)
    requires Valid(r)
  {
    match op
    case DoPush(item) => (YesNo(PushRing(r, item).0), PushRing(r, item).1)
    case TryPop => (Item(PopRing(r).0), PopRing(r).1)
    case DoClear => (Done, Empty(r.slots))
    case AskBack => (Item(BackRing(r)), r)
    case AskFull => (YesNo(r.size >= |r.slots|), r)
    case AskEmpty => (YesNo(0 == r.size), r)
    case AskSize => (Number(r.size), r)
    case AskMaxSize => (Number(|r.slots|), r)
  }

  function FifoStep<T>(s: seq<T>, max: nat, op: Op<T>): (Answer<T>, seq<T>) {
    match op
    case DoPush(item) => if |s| < max then (Yes, s + [item]) else (No, s)
    case TryPop => if s == [] then (Item(None), s) else (Item(Some(s[0])), s[1..])
    case DoClear => (Done, [])
    case AskBack => (Item(if s == [] then None else Some(s[|s| - 1])), s)
    case AskFull => (YesNo(|s| == max), s)
    case AskEmpty => (YesNo(s == []), s)
    case AskSize => (Number(|s|), s)
    case AskMaxSize => (Number(max), s)
  }

  lemma StepRefines<T>(r: Ring<T>, op: Op<T>)
    requires Valid(r)
    ensures var (answer, r') := RingStep(r, op);
      && Valid(r') && |r'.slots| == |r.slots|
      && (answer, Contents(r')) == FifoStep(Contents(r), |r.slots|, op)
  {
    match op
    case DoPush(item) => PushAppends(r, item);
    case TryPop => PopTakesFirst(r);
    case AskBack => BackIsLast(r);
    case _ =>
  }

  function RingRun<T>(r: Ring<T>, ops: seq<Op<T>>): (seq<Answer<T>>, Ring<T>)
    requires Valid(r)
    decreases |ops|
  {
    if ops == [] then ([], r)
    else
      StepRefines(r, ops[0]);
      var (answer, r') := RingStep(r, ops[0]);
      var (answers, end) := RingRun(r', ops[1..]);
      ([answer] + answers, end)
  }

  function FifoRun<T>(s: seq<T>, max: nat, ops: seq<Op<T>>): (seq<Answer<T>>, seq<T>)
    decreases |ops|
  {
    if ops == [] then ([], s)
    else
      var (answer, s') := FifoStep(s, max, ops[0]);
      var (answers, end) := FifoRun(s', max, ops[1..]);
      ([answer] + answers, end)
  }

  /** Every run of operations gives the answers that a bounded sequence gives. */
  lemma {:induction false} RingIsFifo<T>(r: Ring<T>, ops: seq<Op<T>>)
    requires Valid(r)
    ensures var (answers, end) := RingRun(r, ops);
      Valid(end) && (answers, Contents(end)) == FifoRun(Contents(r), |r.slots|, ops)
    decreases |ops|
  {
    hide RingStep, FifoStep, Contents;
    if ops != [] {
      StepRefines(r, ops[0]);
      RingIsFifo(RingStep(r, ops[0]).1, ops[1..]);
    }
  }

  // ----- threads that push, pop and wait -----

  /** A thread outside the queue, waiting in pop(), or waiting in the timed pop() */
  datatype Phase = Outside | InPop | InTimedPop

  /** `accepted` records the items of successful pushes, `popped` those of successful pops, in that order. */
  datatype Shared<T> = Shared(ring: Ring<T>, phase: map<Tid, Phase>, accepted: seq<T>, popped: seq<T>)

  /** What happens to one thread while it holds the mutex */
  datatype Event<T> =
    | Pushes(item: T)    // push()
    | Pops(timed: bool)  // a call of pop(), up to its result or its wait
    | Wakes              // the wait returns after a broadcast, or for no reason
    | WaitFails          // the wait returns an error or a timeout

  function Take<T>(s: Shared<T>): Shared<T>
    requires Valid(s.ring) && s.ring.size > 0
  {
    s.(ring := PopRing(s.ring).1, popped := s.popped + [PopRing(s.ring).0.value])
  }

  function Happens<T>(s: Shared<T>, t: Tid, e: Event<T>): Shared<T>
    requires Valid(s.ring)
  {
    if t !in s.phase then s
    else
      match (s.phase[t], e)
      case (Outside, Pushes(item)) =>
        var (ok, ring) := PushRing(s.ring, item);
        s.(ring := ring, accepted := if ok then s.accepted + [item] else s.accepted)
      case (Outside, Pops(timed)) =>
        if s.ring.size <= 0 then s.(phase := s.phase[t := if timed then InTimedPop else InPop]) else Take(s)
      case (InPop, Wakes) => if s.ring.size <= 0 then s else Take(s).(phase := s.phase[t := Outside])
      case (InTimedPop, Wakes) => (if s.ring.size <= 0 then s else Take(s)).(phase := s.phase[t := Outside])
      case (InPop, WaitFails) => s.(phase := s.phase[t := Outside])
      case (InTimedPop, WaitFails) => s.(phase := s.phase[t := Outside])
      case _ => s
  }

  ghost predicate Inv<T>(s: Shared<T>) {
    Valid(s.ring) && s.accepted == s.popped + Contents(s.ring)
  }

  lemma HappensKeepsInv<T>(s: Shared<T>, t: Tid, e: Event<T>)
    requires Inv(s)
    ensures Inv(Happens(s, t, e)) && |Happens(s, t, e).ring.slots| == |s.ring.slots|
  {
    hide PushRing, PopRing, Contents;
    PopTakesFirst(s.ring);
    if e.Pushes? {
      PushAppends(s.ring, e.item);
    }
  }

  /** `r` is `s` after a push: the item is appended, or the queue is full and nothing changes. */
  ghost predicate Pushed<T>(s: Shared<T>, r: Shared<T>, item: T) {
    && Valid(s.ring) && Valid(r.ring) && r.phase == s.phase && r.popped == s.popped
    && if |Contents(s.ring)| < |s.ring.slots|
       then r.accepted == s.accepted + [item] && Contents(r.ring) == Contents(s.ring) + [item]
       else r == s
  }

  /**
   `r` is `s` after a pop by `t`, at once or woken: it takes the first item, or the queue is empty and it waits,
   waits on, or if it was timed gives up.
  */
  ghost predicate Popped<T>(s: Shared<T>, r: Shared<T>, t: Tid, waits: Phase) {
    && Valid(s.ring) && Valid(r.ring) && r.accepted == s.accepted
    && if Contents(s.ring) != []
       then
         && r.popped == s.popped + [Contents(s.ring)[0]] && Contents(r.ring) == Contents(s.ring)[1..]
         && r.phase == s.phase[t := Outside]
       else r == s.(phase := s.phase[t := waits])
  }

  lemma PushIsServed<T>(s: Shared<T>, t: Tid, item: T)
    requires Valid(s.ring) && t in s.phase && s.phase[t] == Outside
    ensures Pushed(s, Happens(s, t, Pushes(item)), item)
  {
    hide Contents;
    PushAppends(s.ring, item);
  }

  lemma PopIsServed<T>(s: Shared<T>, t: Tid, timed: bool)
    requires Valid(s.ring) && t in s.phase && s.phase[t] == Outside
    ensures Popped(s, Happens(s, t, Pops(timed)), t, if timed then InTimedPop else InPop)
  {
    hide Contents;
    PopTakesFirst(s.ring);
    assert s.phase[t := s.phase[t]] == s.phase;
  }

  lemma WakeIsServed<T>(s: Shared<T>, t: Tid)
    requires Valid(s.ring) && t in s.phase && s.phase[t] != Outside
    ensures Popped(s, Happens(s, t, Wakes), t, if s.phase[t] == InPop then InPop else Outside)
  {
    hide Contents;
    PopTakesFirst(s.ring);
    assert s.phase[t := s.phase[t]] == s.phase;
  }

  /** A wait that fails ends the pop without an item. */
  lemma FailedWaitEnds<T>(s: Shared<T>, t: Tid)
    requires Valid(s.ring) && t in s.phase && s.phase[t] != Outside
    ensures Happens(s, t, WaitFails) == s.(phase := s.phase[t := Outside])
  {
  }

  ghost function HappensAll<T>(s: Shared<T>, events: seq<(Tid, Event<T>)>): (r: Shared<T>)
    requires Inv(s)
    decreases |events|
  {
    if events == [] then s
    else
      HappensKeepsInv(s, events[0].0, events[0].1);
      HappensAll(Happens(s, events[0].0, events[0].1), events[1..])
  }

  /** In every interleaving the pops return the accepted items in order, none twice, and never more than fit wait. */
  lemma {:induction false} PopsInOrder<T>(s: Shared<T>, events: seq<(Tid, Event<T>)>)
    requires Inv(s)
    ensures var r := HappensAll(s, events);
      && Inv(r) && r.popped <= r.accepted
      && s.popped <= r.popped && s.accepted <= r.accepted
      && |r.accepted| - |r.popped| <= |s.ring.slots|
    decreases |events|
  {
    hide Happens, Contents;
    if events != [] {
      HappensKeepsInv(s, events[0].0, events[0].1);
      HistoryGrows(s, events[0].0, events[0].1);
      PopsInOrder(Happens(s, events[0].0, events[0].1), events[1..]);
    }
  }

  lemma HistoryGrows<T>(s: Shared<T>, t: Tid, e: Event<T>)
    requires Inv(s)
    ensures s.popped <= Happens(s, t, e).popped && s.accepted <= Happens(s, t, e).accepted
  {
    hide PushRing, PopRing, Contents;
  }

  // ----- the queue as an object -----

  /** A wait of a pop: what other threads do to the queue meanwhile, and whether the wait succeeds */
  datatype Wait<T> = Wait(others: seq<Op<T>>, ok: bool)

  datatype PopEnd<T> = Taken(item: T) | GaveUp | StillWaiting

  /** pop() on a bounded sequence, through the waits that it meets */
  function PopFifo<T>(s: seq<T>, max: nat, waits: seq<Wait<T>>): (PopEnd<T>, seq<T>)
    decreases |waits|
  {
    if s != [] then (Taken(s[0]), s[1..])
    else if waits == [] then (StillWaiting, s)
    else
      var s' := FifoRun(s, max, waits[0].others).1;
      if waits[0].ok then PopFifo(s', max, waits[1..]) else (GaveUp, s')
  }

  /** The timed pop(), which waits once */
  function PopTimedFifo<T>(s: seq<T>, max: nat, wait: Wait<T>): (PopEnd<T>, seq<T>) {
    if s != [] then (Taken(s[0]), s[1..])
    else
      var s' := FifoRun(s, max, wait.others).1;
      if wait.ok && s' != [] then (Taken(s'[0]), s'[1..]) else (GaveUp, s')
  }

  /** How many of the listed waits a pop meets before it ends */
  function WaitsMet<T>(s: seq<T>, max: nat, waits: seq<Wait<T>>): (n: nat)
    ensures n <= |waits|
    decreases |waits|
  {
    if s != [] || waits == [] then 0
    else if !waits[0].ok then 1
    else 1 + WaitsMet(FifoRun(s, max, waits[0].others).1, max, waits[1..])
  }

  /** The queue after the other threads have done what they do during these waits */
  function AfterWaits<T>(s: seq<T>, max: nat, waits: seq<Wait<T>>): seq<T>
    decreases |waits|
  {
    if waits == [] then s else AfterWaits(FifoRun(s, max, waits[0].others).1, max, waits[1..])
  }

  lemma AfterFirstWait<T>(s: seq<T>, max: nat, waits: seq<Wait<T>>, k: nat)
    requires 0 < k <= |waits|
    ensures AfterWaits(s, max, waits[..k]) ==
      AfterWaits(FifoRun(s, max, waits[0].others).1, max, waits[1..][..k - 1])
  {
    assert waits[..k][1..] == waits[1..][..k - 1];
  }

  /**
   Each wait that a pop meets begins on an empty queue, and only the last of them may fail. A pop that takes an
   item takes the first of what the others have left; one that gives up has met a failed wait and takes nothing;
   one that still waits has met all of them and finds the queue empty.
  */
  lemma {:induction false} PopEnds<T>(s: seq<T>, max: nat, waits: seq<Wait<T>>)
    ensures var (end, s') := PopFifo(s, max, waits);
      var n := WaitsMet(s, max, waits);
      var left := AfterWaits(s, max, waits[..n]);
      && (forall k | 0 <= k < n :: AfterWaits(s, max, waits[..k]) == [])
      && (forall k | 0 <= k < n - 1 :: waits[k].ok)
      && match end
         case Taken(item) => (n == 0 || waits[n - 1].ok) && left == [item] + s'
         case GaveUp => n > 0 && !waits[n - 1].ok && left == s'
         case StillWaiting => n == |waits| && (n == 0 || waits[n - 1].ok) && left == s' == []
    decreases |waits|
  {
    if s == [] && waits != [] {
      var s1 := FifoRun(s, max, waits[0].others).1;
      var n := WaitsMet(s, max, waits);
      assert waits[..0] == [];
      AfterFirstWait(s, max, waits, n);
      if waits[0].ok {
        PopEnds(s1, max, waits[1..]);
        forall k | 0 < k < n ensures AfterWaits(s, max, waits[..k]) == [] {
          AfterFirstWait(s, max, waits, k);
        }
        assert forall k | 0 < k < n :: waits[1..][k - 1] == waits[k];
      } else {
        assert waits[1..][..0] == [];
      }
    } else {
      assert waits[..0] == [];
    }
  }

  class BlockQueue<T(0)> {
    const slots: array<T>
    const maxSize: nat
    var size: int
    var front: int
    var back: int

    ghost function View(): Ring<T>
      reads this, slots
    {
      Ring(slots[..], front, back, size)
    }

    ghost predicate IsValid()
      reads this, slots
    {
      Valid(View()) && slots.Length == maxSize
    }

    /** The constructor of the source ends the program for max_size <= 0. */
    constructor (maxSize: nat)
      requires maxSize > 0
      ensures IsValid() && this.maxSize == maxSize && fresh(slots) && Contents(View()) == []
    {
      this.maxSize := maxSize;
      slots := new T[maxSize];
      size, front, back := 0, -1, -1;
    }

    method Clear()
      requires IsValid()
      modifies this
      ensures IsValid() && Contents(View()) == []
    {
      size, front, back := 0, -1, -1;
    }

    method Full() returns (full: bool)
      requires IsValid()
      ensures full <==> |Contents(View())| == maxSize
    {
      return size >= maxSize;
    }

    method Push(item: T) returns (ok: bool)
      requires IsValid()
      modifies this, slots
      ensures IsValid()
      ensures ok <==> old(|Contents(View())|) < maxSize
      ensures Contents(View()) == if ok then old(Contents(View())) + [item] else old(Contents(View()))
    {
      PushAppends(View(), item);
      ghost var next := PushRing(View(), item).1;
      if size >= maxSize {
        return false;
      }
      ModuloOnce(back + 1, maxSize);
      back := (back + 1) % maxSize;
      slots[back] := item;
      size := size + 1;
      assert View() == next;
      return true;
    }

    /** The other threads at work */
    method Perform(ops: seq<Op<T>>)
      requires IsValid()
      modifies this, slots
      ensures IsValid() && Contents(View()) == FifoRun(old(Contents(View())), maxSize, ops).1
    {
      hide Valid, Contents;
      var i := 0;
      assert ops[0..] == ops;
      while i < |ops|
        invariant 0 <= i <= |ops| && IsValid()
        invariant FifoRun(Contents(View()), maxSize, ops[i..]).1 == FifoRun(old(Contents(View())), maxSize, ops).1
      {
        assert ops[i..][0] == ops[i] && ops[i..][1..] == ops[i + 1..];
        match ops[i] {
          case DoPush(item) => var _ := Push(item);
          case TryPop => var _ := TakeFirst();
          case DoClear => Clear();
          case _ =>
        }
        i := i + 1;
      }
    }

    /** pop(): the loop around the wait, and then the first item */
    method Pop(waits: seq<Wait<T>>) returns (end: PopEnd<T>)
      requires IsValid()
      modifies this, slots
      ensures IsValid() && (end, Contents(View())) == PopFifo(old(Contents(View())), maxSize, waits)
    {
      hide Valid, Contents;
      var i := 0;
      assert waits[0..] == waits;
      while size <= 0
        invariant 0 <= i <= |waits| && IsValid()
        invariant PopFifo(Contents(View()), maxSize, waits[i..]) == PopFifo(old(Contents(View())), maxSize, waits)
        decreases |waits| - i
      {
        if i == |waits| {
          return StillWaiting;
        }
        assert waits[i..][0] == waits[i] && waits[i..][1..] == waits[i + 1..];
        Perform(waits[i].others);
        if !waits[i].ok {
          return GaveUp;
        }
        i := i + 1;
      }
      var item := TakeFirst();
      return Taken(item.value);
    }

    /** The timed pop() */
    method PopTimed(wait: Wait<T>) returns (end: PopEnd<T>)
      requires IsValid()
      modifies this, slots
      ensures IsValid() && (end, Contents(View())) == PopTimedFifo(old(Contents(View())), maxSize, wait)
    {
      hide Valid, Contents;
      if size <= 0 {
        Perform(wait.others);
        if !wait.ok {
          return GaveUp;
        }
      }
      var item := TakeFirst();
      return if item.None? then GaveUp else Taken(item.value);
    }

    /** What both pops do behind their waiting; only the timed one gets here with an empty queue. */
    method TakeFirst() returns (item: Option<T>)
      requires IsValid()
      modifies this
      ensures IsValid()
      ensures if old(Contents(View())) == [] then item == None && Contents(View()) == []
        else item == Some(old(Contents(View()))[0]) && Contents(View()) == old(Contents(View()))[1..]
    {
      PopTakesFirst(View());
      ghost var next := PopRing(View()).1;
      if size <= 0 {
        return None;
      }
      ModuloOnce(front + 1, maxSize);
      front := (front + 1) % maxSize;
      item := Some(slots[front]);
      size := size - 1;
      assert View() == next;
    }

    method Back() returns (item: Option<T>)
      requires IsValid()
      ensures item == if Contents(View()) == [] then None else Some(Contents(View())[|Contents(View())| - 1])
    {
      BackIsLast(View());
      if size == 0 {
        return None;
      }
      return Some(slots[back]);
    }
  }
}
