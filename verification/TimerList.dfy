/** The ascending timer list of lst_timer.h: a doubly linked list, changed in place. */
module TimerList {

  /** What a timer stands for: the connection of its user_data and the time it expires */
  datatype Entry = Entry(sockfd: nat, expire: int)

  predicate Ascending(s: seq<Entry>) {
    forall i, j | 0 <= i < j < |s| :: s[i].expire <= s[j].expire
  }

  /** How many leading entries expire no later than `expire` */
  function Place(s: seq<Entry>, expire: int): (p: nat)
    ensures p <= |s|
    ensures forall i | 0 <= i < p :: s[i].expire <= expire
    ensures p < |s| ==> s[p].expire > expire
  {
    if s == [] || s[0].expire > expire then 0 else 1 + Place(s[1..], expire)
  }

  function Remove<T>(s: seq<T>, i: nat): (r: seq<T>)
    requires i < |s|
    ensures |r| == |s| - 1
    ensures forall k | 0 <= k < |r| :: r[k] == if k < i then s[k] else s[k + 1]
  {
    seq(|s| - 1, k requires 0 <= k < |s| - 1 => if k < i then s[k] else s[k + 1])
  }

  function InsertAt<T>(s: seq<T>, p: nat, x: T): (r: seq<T>)
    requires p <= |s|
    ensures |r| == |s| + 1
    ensures forall k | 0 <= k < |r| :: r[k] == if k < p then s[k] else if k == p then x else s[k - 1]
  {
    seq(|s| + 1, k requires 0 <= k < |s| + 1 => if k < p then s[k] else if k == p then x else s[k - 1])
  }

  /** Without the element at `i` */
  lemma RemoveIsSplit<T>(s: seq<T>, i: nat)
    requires i < |s|
    ensures Remove(s, i) == s[..i] + s[i + 1..]
  {
  }

  lemma PutBack<T>(s: seq<T>, i: nat)
    requires i < |s|
    ensures InsertAt(Remove(s, i), i, s[i]) == s
  {
  }

  /** A new entry goes behind those that expire no later. */
  function Insert(s: seq<Entry>, e: Entry): seq<Entry> {
    InsertAt(s, Place(s, e.expire), e)
  }

  lemma PlaceUnique(s: seq<Entry>, expire: int, p: nat)
    requires p <= |s| && (forall i | 0 <= i < p :: s[i].expire <= expire) && (p < |s| ==> s[p].expire > expire)
    ensures Place(s, expire) == p
  {
    assert !(Place(s, expire) < p) && !(p < Place(s, expire));
  }

  /** Before its place nothing expires later than the new entry, behind it everything does. */
  lemma {:induction false} PlaceSplits(s: seq<Entry>, expire: int)
    requires Ascending(s)
    ensures forall i | Place(s, expire) <= i < |s| :: s[i].expire > expire
  {
  }

  lemma InsertKeepsOrder(s: seq<Entry>, e: Entry)
    requires Ascending(s)
    ensures Ascending(Insert(s, e))
  {
    PlaceSplits(s, e.expire);
  }

  /** An entry that still stands right is where inserting it again would put it. */
  lemma InsertInPlace(s: seq<Entry>, i: nat)
    requires i < |s| && Ascending(Remove(s, i))
    requires forall k | 0 <= k < i :: s[k].expire <= s[i].expire
    requires i + 1 < |s| ==> s[i].expire < s[i + 1].expire
    ensures Place(Remove(s, i), s[i].expire) == i && Insert(Remove(s, i), s[i]) == s && Ascending(s)
  {
    PlaceUnique(Remove(s, i), s[i].expire, i);
    InsertKeepsOrder(Remove(s, i), s[i]);
    assert s == Insert(Remove(s, i), s[i]);
  }

  class Timer {
    var expire: int
    const sockfd: nat
    var prev: Timer?
    var next: Timer?

    constructor (sockfd: nat, expire: int)
      ensures this.sockfd == sockfd && this.expire == expire && prev == null && next == null
    {
      this.sockfd, this.expire, prev, next := sockfd, expire, null, null;
    }
  }

  class SortedTimerList {
    var head: Timer?
    var tail: Timer?
    /** The timers from head to tail */
    ghost var spine: seq<Timer>

    ghost predicate Distinct()
      reads this
    {
      forall i, j | 0 <= i < j < |spine| :: spine[i] != spine[j]
    }

    /** prev and next are each other's inverse along the spine; tail means something only if there is a head. */
    ghost predicate Linked()
      reads this, spine
    {
      && Distinct()
      && (forall i | 0 <= i < |spine| - 1 :: spine[i].next == spine[i + 1])
      && (forall i | 1 <= i < |spine| :: spine[i].prev == spine[i - 1])
      && (if spine == [] then head == null else
          head == spine[0] && tail == spine[|spine| - 1] && spine[0].prev == null && spine[|spine| - 1].next == null)
    }

    ghost function Entries(): (s: seq<Entry>)
      reads this, spine
      ensures |s| == |spine|
      ensures forall i | 0 <= i < |s| :: s[i] == Entry(spine[i].sockfd, spine[i].expire)
    {
      seq(|spine|, i requires 0 <= i < |spine| reads this, spine => Entry(spine[i].sockfd, spine[i].expire))
    }

    ghost predicate Valid()
      reads this, spine
    {
      Linked() && Ascending(Entries())
    }

    ghost function Nodes(): set<Timer>
      reads this
    {
      set t | t in spine
    }

    constructor ()
      ensures Valid() && spine == []
    {
      head, tail, spine := null, null, [];
    }

    /** Puts `timer` between two neighbours, or behind the last timer if `tmp` is NULL. */
    method Link(timer: Timer, prev: Timer, tmp: Timer?, ghost p: nat)
      requires Linked() && timer !in spine
      requires 0 < p <= |spine| && prev == spine[p - 1] && tmp == if p < |spine| then spine[p] else null
      modifies this`tail, this`spine, Nodes()`next, Nodes()`prev, timer`next, timer`prev
      ensures Linked() && spine == InsertAt(old(spine), p, timer)
    {
      prev.next := timer;
      timer.next := tmp;
      timer.prev := prev;
      if tmp != null {
        tmp.prev := timer;
      } else {
        tail := timer;
      }
      spine := InsertAt(spine, p, timer);
    }

    /** Takes the timer at `i` out of the list; its own pointers keep their values. */
    method Unlink(timer: Timer, ghost i: nat)
      requires Linked() && i < |spine| && timer == spine[i]
      requires |spine| > 1
      modifies this, Nodes()`next, Nodes()`prev
      ensures Linked() && spine == Remove(old(spine), i)
      ensures timer.next == old(timer.next) && timer.prev == old(timer.prev)
      ensures tail == if i + 1 < old(|spine|) then old(tail) else old(spine)[i - 1]
    {
      if timer == head {
        assert i == 0 && head.next == spine[1];
        head := head.next;
        head.prev := null;
      } else if timer == tail {
        assert i == |spine| - 1 && tail.prev == spine[i - 1];
        tail := tail.prev;
        tail.next := null;
      } else {
        assert timer.prev == spine[i - 1] && timer.next == spine[i + 1];
        timer.prev.next := timer.next;
        timer.next.prev := timer.prev;
      }
      spine := Remove(spine, i);
    }

    /** Link, where that is the place of the timer in the order */
    method LinkInOrder(timer: Timer, prev: Timer, tmp: Timer?, ghost p: nat)
      requires Valid() && timer !in spine
      requires 0 < p <= |spine| && prev == spine[p - 1] && tmp == if p < |spine| then spine[p] else null
      requires p == Place(Entries(), timer.expire)
      modifies this`tail, this`spine, Nodes()`next, Nodes()`prev, timer`next, timer`prev
      ensures Valid()
      ensures spine == InsertAt(old(spine), p, timer)
      ensures Entries() == Insert(old(Entries()), Entry(timer.sockfd, timer.expire))
    {
      ghost var before := Entries();
      InsertKeepsOrder(before, Entry(timer.sockfd, timer.expire));
      Link(timer, prev, tmp, p);
      assert Entries() == InsertAt(before, p, Entry(timer.sockfd, timer.expire));
    }

    /** The second add_timer: `timer` goes behind `start` and all that expire no later. */
    method AddAfter(timer: Timer, start: Timer, ghost k0: nat)
      requires Valid() && timer !in spine
      requires k0 < |spine| && start == spine[k0] && start.expire <= timer.expire
      modifies this`tail, this`spine, Nodes()`next, Nodes()`prev, timer`next, timer`prev
      ensures Valid()
      ensures spine == InsertAt(old(spine), Place(old(Entries()), timer.expire), timer)
      ensures Entries() == Insert(old(Entries()), Entry(timer.sockfd, timer.expire))
    {
      hide *;
      ghost var k;
      var prev, tmp;
      prev, tmp, k := FindPlace(timer.expire, start, k0);
      LinkInOrder(timer, prev, tmp, k + 1);
    }

    /** The loop of the second add_timer: the last timer that expires no later, and its successor */
    method FindPlace(expire: int, start: Timer, ghost k0: nat) returns (prev: Timer, tmp: Timer?, ghost k: nat)
      requires Valid() && k0 < |spine| && start == spine[k0] && start.expire <= expire
      ensures k < |spine| && prev == spine[k] && tmp == if k + 1 < |spine| then spine[k + 1] else null
      ensures prev.expire <= expire && (tmp != null ==> expire < tmp.expire)
      ensures k + 1 == Place(Entries(), expire)
    {
      prev, k := start, k0;
      tmp := prev.next;
      while tmp != null && expire >= tmp.expire
        invariant k0 <= k < |spine| && prev == spine[k]
        invariant tmp == if k + 1 < |spine| then spine[k + 1] else null
        invariant prev.expire <= expire
        decreases |spine| - k
      {
        prev := tmp;
        tmp := tmp.next;
        k := k + 1;
      }
      PlaceUnique(Entries(), expire, k + 1);
    }

    /** The first add_timer, for a timer that is not in a list */
    method AddTimer(timer: Timer)
      requires Valid() && timer !in spine && timer.prev == null && timer.next == null
      modifies this, Nodes()`next, Nodes()`prev, timer`next, timer`prev
      ensures Valid()
      ensures spine == InsertAt(old(spine), Place(old(Entries()), timer.expire), timer)
      ensures Entries() == Insert(old(Entries()), Entry(timer.sockfd, timer.expire))
    {
      if head == null {
        PlaceUnique(Entries(), timer.expire, 0);
        head, tail := timer, timer;
        spine := [timer];
      } else if timer.expire < head.expire {
        AddFirst(timer);
      } else {
        AddAfter(timer, head, 0);
      }
    }

    method AddFirst(timer: Timer)
      requires Valid() && timer !in spine && timer.prev == null
      requires head != null && timer.expire < head.expire
      modifies this, Nodes()`prev, timer`next
      ensures Valid()
      ensures spine == InsertAt(old(spine), Place(old(Entries()), timer.expire), timer)
      ensures Entries() == Insert(old(Entries()), Entry(timer.sockfd, timer.expire))
    {
      ghost var before := Entries();
      PlaceUnique(before, timer.expire, 0);
      timer.next := head;
      head.prev := timer;
      head := timer;
      spine := InsertAt(spine, 0, timer);
      InsertKeepsOrder(before, Entry(timer.sockfd, timer.expire));
      assert Entries() == Insert(before, Entry(timer.sockfd, timer.expire));
    }

    /** The list without the timer at `i` is in order, and that timer expires no earlier than those before it. */
    ghost predicate OnlyGrew(i: nat)
      requires i < |spine|
      reads this, spine
    {
      && Linked()
      && Ascending(Remove(Entries(), i))
      && forall k | 0 <= k < i :: spine[k].expire <= spine[i].expire
    }

    /** adjust_timer, after the expiry of `timer` has been postponed */
    method AdjustTimer(timer: Timer, ghost i: nat)
      requires i < |spine| && timer == spine[i] && OnlyGrew(i)
      modifies this, Nodes()`next, Nodes()`prev
      ensures Valid()
      ensures spine == InsertAt(Remove(old(spine), i), Place(Remove(old(Entries()), i), timer.expire), timer)
      ensures Entries() == Insert(Remove(old(Entries()), i), old(Entries())[i])
    {
      ghost var rest := Remove(Entries(), i);
      var tmp := timer.next;
      if tmp == null || timer.expire < tmp.expire {
        StaysInPlace(i);
        return;
      }
      if timer == head {
        Unlink(timer, i);
        timer.next := null;
        assert Entries() == rest;
        AddAfter(timer, head, 0);
      } else {
        Unlink(timer, i);
        assert Entries() == rest;
        AddAfter(timer, timer.next, i);
      }
    }

    lemma StaysInPlace(i: nat)
      requires i < |spine| && OnlyGrew(i)
      requires i + 1 < |spine| ==> spine[i].expire < spine[i + 1].expire
      ensures Valid()
      ensures Entries() == Insert(Remove(Entries(), i), Entries()[i])
      ensures spine == InsertAt(Remove(spine, i), Place(Remove(Entries(), i), spine[i].expire), spine[i])
    {
      InsertInPlace(Entries(), i);
      PutBack(spine, i);
    }

    method DelTimer(timer: Timer, ghost i: nat)
      requires Valid() && i < |spine| && timer == spine[i]
      modifies this, Nodes()`next, Nodes()`prev
      ensures Valid() && spine == Remove(old(spine), i)
      ensures Entries() == Remove(old(Entries()), i)
    {
      ghost var rest := Remove(Entries(), i);
      if timer == head && timer == tail {
        head := null;
        tail := null;
        spine := [];
      } else {
        Unlink(timer, i);
      }
      assert Entries() == rest;
    }

    /** tick: calls back the expired timers from the front and drops them. tail is left as it is. */
    method Tick(cur: int) returns (fired: seq<nat>)
      requires Valid()
      modifies this`head, this`spine, Nodes()`prev
      ensures Valid()
      ensures |fired| <= old(|spine|) && spine == old(spine)[|fired|..]
      ensures Entries() == old(Entries())[|fired|..]
      ensures forall k | 0 <= k < |fired| :: fired[k] == old(Entries())[k].sockfd && old(Entries())[k].expire <= cur
      ensures forall e | e in Entries() :: e.expire > cur
    {
      hide Ascending;
      fired := [];
      ghost var timers, entries := spine, Entries();
      var tmp := head;
      while tmp != null && cur >= tmp.expire
        invariant Linked() && tmp == head
        invariant |fired| <= |timers| && spine == timers[|fired|..]
        invariant forall k | 0 <= k < |fired| :: fired[k] == entries[k].sockfd && entries[k].expire <= cur
        decreases |spine|
      {
        fired := fired + [tmp.sockfd];
        DropFirst();
        tmp := head;
      }
      assert Entries() == entries[|fired|..];
      DropKeepsOrder(entries, |fired|);
      FrontIsEarliest(Entries(), cur);
    }

    /** head moves on; the timer it pointed to is deleted. */
    method DropFirst()
      requires Linked() && head != null
      modifies this`head, this`spine, Nodes()`prev
      ensures Linked() && spine == old(spine)[1..]
    {
      assert |spine| > 1 ==> head.next == spine[1];
      head := head.next;
      if head != null {
        head.prev := null;
      }
      spine := spine[1..];
    }
  }

  lemma DropKeepsOrder(s: seq<Entry>, n: nat)
    requires Ascending(s) && n <= |s|
    ensures Ascending(s[n..])
  {
  }

  lemma FrontIsEarliest(s: seq<Entry>, cur: int)
    requires Ascending(s) && (s != [] ==> s[0].expire > cur)
    ensures forall e | e in s :: e.expire > cur
  {
    forall e | e in s ensures e.expire > cur {
      var i :| 0 <= i < |s| && s[i] == e;
      assert i > 0 ==> s[0].expire <= s[i].expire;
    }
  }
}
