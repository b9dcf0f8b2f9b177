/** get_pid of kern/process/proc.c. */
module Pids {
  import opened Counting

  const MAX_PID: nat := 8192

  /** The pid tried after p */
  function Next(p: nat): nat { if p + 1 >= MAX_PID then 1 else p + 1 }

  /** How many pids after `from`, going round, `to` comes */
  function Ahead(from: nat, to: nat): nat
    requires 1 <= from < MAX_PID && 1 <= to < MAX_PID
  {
    if to >= from then to - from else to - from + (MAX_PID - 1)
  }

  lemma AheadNext(from: nat, to: nat)
    requires 1 <= from < MAX_PID && 1 <= to < MAX_PID && from != to
    ensures Ahead(Next(from), to) == Ahead(from, to) - 1
  {}

  lemma NextAhead(from: nat, to: nat)
    requires 1 <= from < MAX_PID && 1 <= to < MAX_PID && Next(to) != from
    ensures Ahead(from, Next(to)) == Ahead(from, to) + 1
  {}

  lemma AheadInjective(from: nat, a: nat, b: nat)
    requires 1 <= from < MAX_PID && 1 <= a < MAX_PID && 1 <= b < MAX_PID && Ahead(from, a) == Ahead(from, b)
    ensures a == b
  {}

  /** No live pid lies strictly between last and safe. */
  predicate Clear(live: seq<nat>, last: nat, safe: nat) {
    forall i | 0 <= i < |live| :: live[i] <= last || live[i] >= safe
  }

  /** Exits between calls do not disturb it. */
  lemma ExitsKeepClear(live: seq<nat>, fewer: seq<nat>, last: nat, safe: nat)
    requires Clear(live, last, safe) && forall x | x in fewer :: x in live
    ensures Clear(fewer, last, safe)
  {
    forall i | 0 <= i < |fewer| ensures fewer[i] <= last || fewer[i] >= safe {
      assert fewer[i] in live;
    }
  }

  lemma {:induction false} ElementsSize<T>(q: seq<T>)
    ensures |Elements(q)| <= |q|
  {
    if q != [] {
      var n := |q| - 1;
      ElementsSize(q[..n]);
      assert Elements(q) == Elements(q[..n]) + {q[n]};
    } else {
      assert Elements(q) == {};
    }
  }

  lemma FreePid(live: seq<nat>) returns (f: nat)
    requires |live| < MAX_PID - 1
    ensures 1 <= f < MAX_PID && f !in live
  {
    hide Below;
    var all := Below(MAX_PID) - {0};
    ElementsSize(live);
    assert all + {0} == Below(MAX_PID);
    if all <= Elements(live) {
      SubsetSize(all, Elements(live));
    }
    f :| f in all && f !in Elements(live);
  }

  class Allocator {
    var lastPid: nat
    var nextSafe: nat

    /** What every call keeps, whoever has exited in between: nothing live strictly between last_pid and next_safe */
    ghost predicate Valid(live: seq<nat>)
      reads this
    {
      1 <= lastPid <= MAX_PID && nextSafe <= MAX_PID && Clear(live, lastPid, nextSafe)
    }

    constructor ()
      ensures forall live :: Valid(live)
    {
      lastPid, nextSafe := MAX_PID, MAX_PID;
    }

    /** Exits between calls leave that as it is. */
    lemma Fewer(live: seq<nat>, fewer: seq<nat>)
      requires Valid(live) && forall x | x in fewer :: x in live
      ensures Valid(fewer)
    {
      ExitsKeepClear(live, fewer, lastPid, nextSafe);
    }

    /**
      get_pid: the first pid after last_pid, going round, that no live process has; `live` is the order of proc_list.
      */
    method GetPid(live: seq<nat>) returns (pid: nat)
      requires Valid(live) && |live| < MAX_PID - 1
      modifies this
      ensures 1 <= pid < MAX_PID && pid !in live && pid == lastPid && Valid(live + [pid])
      ensures forall q: nat | 1 <= q < MAX_PID && Ahead(Next(old(lastPid)), q) < Ahead(Next(old(lastPid)), pid) ::
                q in live
    {
      lastPid := lastPid + 1;
      if lastPid < MAX_PID && lastPid < nextSafe {
        return lastPid;
      }
      if lastPid >= MAX_PID {
        lastPid := 1;
      }
      nextSafe := MAX_PID;
      ghost var start := lastPid;
      ghost var f := FreePid(live);
      var i := 0;
      while i < |live|
        invariant i <= |live| && 1 <= lastPid < nextSafe <= MAX_PID
        invariant forall j | 0 <= j < i :: live[j] < lastPid || live[j] >= nextSafe
        invariant forall q: nat | 1 <= q < MAX_PID && Ahead(start, q) < Ahead(start, lastPid) :: q in live
        decreases Ahead(lastPid, f), |live| - i
      {
        var p := live[i];
        if p == lastPid {
          assert p in live;
          AheadNext(lastPid, f);
          Skipped(live, start, lastPid, f);
          lastPid := lastPid + 1;
          if lastPid >= nextSafe {
            if lastPid >= MAX_PID {
              lastPid := 1;
            }
            nextSafe := MAX_PID;
            i := 0;
            continue;
          }
        } else if p > lastPid && nextSafe > p {
          nextSafe := p;
        }
        i := i + 1;
      }
      pid := lastPid;
    }
  }

  lemma Skipped(live: seq<nat>, start: nat, last: nat, f: nat)
    requires 1 <= start < MAX_PID && 1 <= last < MAX_PID && 1 <= f < MAX_PID && last in live && f !in live
    requires forall q: nat | 1 <= q < MAX_PID && Ahead(start, q) < Ahead(start, last) :: q in live
    ensures forall q: nat | 1 <= q < MAX_PID && Ahead(start, q) < Ahead(start, Next(last)) :: q in live
  {
    if Next(last) == start {
      forall q: nat | 1 <= q < MAX_PID && Ahead(start, q) < Ahead(start, Next(last)) ensures q in live {}
    } else {
      NextAhead(start, last);
      forall q: nat | 1 <= q < MAX_PID && Ahead(start, q) < Ahead(start, Next(last)) ensures q in live {
        if Ahead(start, q) == Ahead(start, last) {
          AheadInjective(start, q, last);
        }
      }
    }
  }
}
