/** Counting the threads that are in a certain kind of place. */
module Counting {
  type Tid = nat

  function Members<P>(phase: map<Tid, P>, has: P -> bool): set<Tid> {
    set t | t in phase && has(phase[t])
  }

  function Bit(b: bool): int {
    if b then 1 else 0
  }

  lemma CountChange(before: set<Tid>, after: set<Tid>, t: Tid)
    requires before - {t} == after - {t}
    ensures |after| == |before| - Bit(t in before) + Bit(t in after)
  {
    assert t in before ==> before == (before - {t}) + {t};
    assert t !in before ==> before == before - {t};
    assert t in after ==> after == (after - {t}) + {t};
    assert t !in after ==> after == after - {t};
  }

  /** When one thread moves, the count changes by that thread alone. */
  lemma MoveCounts<P>(phase: map<Tid, P>, t: Tid, p: P, has: P -> bool)
    requires t in phase
    ensures |Members(phase[t := p], has)| == |Members(phase, has)| - Bit(has(phase[t])) + Bit(has(p))
  {
    var before, after := Members(phase, has), Members(phase[t := p], has);
    assert before - {t} == after - {t};
    CountChange(before, after, t);
  }
}
