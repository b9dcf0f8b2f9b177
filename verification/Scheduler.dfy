/** wakeup_proc and schedule of kern/schedule/sched.c over the round-robin queue of default_sched.c. */
module RoundRobin {
  import opened Counting
  import opened ProcessStates

  datatype State = State(run: map<nat, Run>, queue: seq<nat>, current: nat)

  /** The queue holds exactly the runnable processes other than the current one and idle, once each. */
  ghost predicate Valid(s: State) {
    && Distinct(s.queue) && s.current in s.run && IDLE in s.run && s.run[IDLE] == Runnable
    && forall p: nat :: p in s.queue <==> Queued(s, p)
  }

  predicate Queued(s: State, p: nat) {
    p in s.run && s.run[p] == Runnable && p != s.current && p != IDLE
  }

  /**
    The events of a run: fork, wakeup_proc, the current process giving up being runnable, its reaping, and schedule.
    */
  datatype Event = Fork(p: nat) | Wake(p: nat) | Stop(to: Run) | Reap(p: nat) | Schedule

  predicate Legal(s: State, ev: Event) {
    match ev
    case Fork(p) => p !in s.run
    case Wake(p) => p in s.run && s.run[p] != Zombie
    case Stop(to) => s.current != IDLE && to != Runnable && s.current in s.run
    case Reap(p) => p in s.run && s.run[p] == Zombie && p != s.current
    case Schedule => true
  }

  /** wakeup_proc; a process just forked is woken from PROC_UNINIT */
  function Wakeup(s: State, p: nat): State {
    if p in s.run && s.run[p] == Runnable then s
    else State(s.run[p := Runnable], if p != s.current && p != IDLE then s.queue + [p] else s.queue, s.current)
  }

  /** The queue once schedule has put a runnable current process back */
  function Requeued(s: State): seq<nat> {
    if s.current in s.run && s.run[s.current] == Runnable && s.current != IDLE then s.queue + [s.current] else s.queue
  }

  function Scheduled(s: State): State {
    var q := Requeued(s);
    if q == [] then s.(current := IDLE) else State(s.run, q[1..], q[0])
  }

  function Step(s: State, ev: Event): State {
    match ev
    case Fork(p) => Wakeup(s, p)
    case Wake(p) => Wakeup(s, p)
    case Stop(to) => s.(run := s.run[s.current := to])
    case Reap(p) => s.(run := s.run - {p})
    case Schedule => Scheduled(s)
  }

  /** No step breaks the invariant; in particular RR_enqueue never finds its process queued already. */
  lemma StepValid(s: State, ev: Event)
    requires Valid(s) && Legal(s, ev)
    ensures Valid(Step(s, ev))
    ensures ev.Schedule? ==> Distinct(Requeued(s)) && s.current !in s.queue
  {
    assert s.current !in s.queue;
    if ev.Schedule? {
      var q := Requeued(s);
      DistinctAppend(s.queue, s.current);
      forall p: nat ensures p in q <==> p in s.run && s.run[p] == Runnable && p != IDLE {
        assert p in s.queue <==> Queued(s, p);
      }
      if q != [] {
        assert q[0] in q;
        DistinctTail(q);
      }
    } else {
      if ev.Fork? || ev.Wake? {
        WakeupDistinct(s, ev.p);
      }
      forall p: nat ensures p in Step(s, ev).queue <==> Queued(Step(s, ev), p) {
        assert p in s.queue <==> Queued(s, p);
      }
    }
  }

  lemma WakeupDistinct(s: State, p: nat)
    requires Valid(s)
    ensures Distinct(Wakeup(s, p).queue)
  {
    if !(p in s.run && s.run[p] == Runnable) {
      assert p !in s.queue;
      DistinctAppend(s.queue, p);
    }
  }

  /** Some process other than idle is runnable. */
  ghost predicate SomeoneRunnable(s: State) { exists p :: p in s.run && s.run[p] == Runnable && p != IDLE }

  /**
    schedule hands the processor to a runnable process: the one that has waited longest, the current one if it is alone,
    and idle only if nobody else is runnable. The process that gives way is then last in line, and nobody's run state
    changes.
    */
  ghost predicate HandsOver(s: State, r: State)
    requires Valid(s)
  {
    && r.run == s.run && r.current in r.run && r.run[r.current] == Runnable
    && (r.current == IDLE <==> !SomeoneRunnable(s))
    && (s.queue == [] && s.run[s.current] == Runnable ==> r.current == s.current && r.queue == [])
    && (s.queue != [] ==> r.current == s.queue[0])
    && (s.queue != [] ==>
          r.queue == s.queue[1..] + (if s.run[s.current] == Runnable && s.current != IDLE then [s.current] else []))
  }

  lemma ScheduleHandsOver(s: State)
    requires Valid(s)
    ensures HandsOver(s, Scheduled(s))
  {
    var r := Scheduled(s);
    if s.queue != [] {
      assert s.queue[0] in s.queue;
      assert Queued(s, s.queue[0]);
    } else if p :| p in s.run && s.run[p] == Runnable && p != IDLE {
      assert p !in s.queue;
      assert !Queued(s, p);
    }
  }

  /**
    wakeup_proc makes that process runnable and, unless it is the current one, the last in line; one that is runnable
    already keeps its place, and nobody else changes.
    */
  ghost predicate Wakes(s: State, r: State, p: nat)
    requires p in s.run
  {
    && r.current == s.current && p in r.run && r.run[p] == Runnable && r.run.Keys == s.run.Keys
    && (forall x | x in s.run && x != p :: r.run[x] == s.run[x])
    && r.queue == if s.run[p] != Runnable && p != s.current then s.queue + [p] else s.queue
  }

  lemma WakeupWakes(s: State, p: nat)
    requires Valid(s) && Legal(s, Wake(p))
    ensures Wakes(s, Wakeup(s, p), p)
  {}

  /** A forked process is runnable and last in line; giving up and reaping change that one process and no place. */
  lemma OtherEvents(s: State, ev: Event)
    requires Valid(s) && Legal(s, ev)
    ensures var r := Step(s, ev);
      && (ev.Fork? ==> r.run == s.run[ev.p := Runnable] && r.queue == s.queue + [ev.p] && r.current == s.current)
      && (ev.Stop? ==> s.current in r.run && r.run[s.current] == ev.to && r.queue == s.queue && r.current == s.current)
      && (ev.Reap? ==> r.run.Keys == s.run.Keys - {ev.p} && r.queue == s.queue && r.current == s.current)
      && (ev.Stop? || ev.Reap? ==>
            forall x | x in r.run && !(ev.Stop? && x == s.current) :: x in s.run && r.run[x] == s.run[x])
  {
    assert ev.Fork? ==> ev.p != s.current && ev.p != IDLE;
  }

  predicate LegalRun(s: State, evs: seq<Event>)
    decreases |evs|
  {
    evs == [] || (Legal(s, evs[0]) && LegalRun(Step(s, evs[0]), evs[1..]))
  }

  function Play(s: State, evs: seq<Event>): State
    decreases |evs|
  {
    if evs == [] then s else Play(Step(s, evs[0]), evs[1..])
  }

  lemma {:induction false} PlayValid(s: State, evs: seq<Event>)
    requires Valid(s) && LegalRun(s, evs)
    ensures Valid(Play(s, evs))
    decreases |evs|
  {
    if evs != [] {
      StepValid(s, evs[0]);
      PlayValid(Step(s, evs[0]), evs[1..]);
    }
  }

  function Schedules(evs: seq<Event>): nat {
    if evs == [] then 0 else (if evs[0].Schedule? then 1 else 0) + Schedules(evs[1..])
  }

  /** One step moves a queued process forward exactly at schedule, and makes it current exactly from the front. */
  lemma StepPosition(s: State, ev: Event, k: nat)
    requires Valid(s) && Legal(s, ev) && k < |s.queue|
    ensures !ev.Schedule? ==>
              k < |Step(s, ev).queue| && Step(s, ev).queue[k] == s.queue[k] && Step(s, ev).current == s.current
    ensures ev.Schedule? && k > 0 ==> k - 1 < |Step(s, ev).queue| && Step(s, ev).queue[k - 1] == s.queue[k]
    ensures ev.Schedule? && k > 0 ==> Step(s, ev).current == s.queue[0] != s.queue[k]
    ensures ev.Schedule? && k == 0 ==> Step(s, ev).current == s.queue[0]
  {}

  /** A process at position k of the queue becomes current at the (k+1)-th schedule of the run, and not before. */
  lemma {:induction false} RunsInTurn(s: State, evs: seq<Event>, k: nat)
    requires Valid(s) && LegalRun(s, evs) && k < |s.queue|
    ensures Schedules(evs) <= k ==>
              var r := Play(s, evs);
              var j := k - Schedules(evs);
              j < |r.queue| && r.queue[j] == s.queue[k] && r.current != s.queue[k]
    ensures evs != [] && Schedules(evs) == k + 1 && evs[|evs| - 1].Schedule? ==> Play(s, evs).current == s.queue[k]
    decreases |evs|
  {
    hide Valid, Step, Legal;
    if evs == [] {
      NotCurrent(s, k);
    } else {
      var ev, rest := evs[0], evs[1..];
      StepValid(s, ev);
      StepPosition(s, ev, k);
      if !ev.Schedule? {
        RunsInTurn(Step(s, ev), rest, k);
      } else if k > 0 {
        RunsInTurn(Step(s, ev), rest, k - 1);
      } else if rest != [] && Schedules(rest) == 0 {
        NoScheduleAtEnd(rest);
      }
    }
  }

  lemma NotCurrent(s: State, k: nat)
    requires Valid(s) && k < |s.queue|
    ensures s.queue[k] != s.current
  {
    assert s.queue[k] in s.queue;
  }

  lemma {:induction false} NoScheduleAtEnd(evs: seq<Event>)
    requires evs != [] && Schedules(evs) == 0
    ensures !evs[|evs| - 1].Schedule?
  {
    if |evs| > 1 {
      NoScheduleAtEnd(evs[1..]);
    }
  }
}

/** The same operations on the run queue in place. */
module Scheduler {
  import opened Counting
  import opened ProcessStates
  import opened RoundRobin

  class Cpu {
    var run: map<nat, Run>
    var queue: seq<nat>
    var current: nat

    ghost function Abs(): State
      reads this
    {
      State(run, queue, current)
    }

    constructor ()
      ensures Valid(Abs()) && current == IDLE && run == map[IDLE := Runnable]
    {
      run, queue, current := map[IDLE := Runnable], [], IDLE;
    }

    /** RR_enqueue, whose assertion is the precondition */
    method Enqueue(p: nat)
      requires p !in queue
      modifies this`queue
      ensures queue == old(queue) + [p]
    {
      queue := queue + [p];
    }

    /** RR_dequeue of the process RR_pick_next returned */
    method Dequeue(p: nat)
      requires queue != [] && p == queue[0]
      modifies this`queue
      ensures queue == old(queue)[1..]
    {
      queue := queue[1..];
    }

    method PickNext() returns (next: Option<nat>)
      ensures next == if queue == [] then None else Some(queue[0])
    {
      next := if queue == [] then None else Some(queue[0]);
    }

    /** wakeup_proc */
    method WakeupProc(p: nat)
      requires Valid(Abs()) && Legal(Abs(), Wake(p))
      modifies this
      ensures Valid(Abs()) && Abs() == Wakeup(old(Abs()), p) && Wakes(old(Abs()), Abs(), p)
    {
      StepValid(Abs(), Wake(p));
      WakeupWakes(Abs(), p);
      if run[p] != Runnable {
        assert p !in queue;
        run := run[p := Runnable];
        if p != current && p != IDLE {
          Enqueue(p);
        }
      }
    }

    /** schedule */
    method Schedule()
      requires Valid(Abs())
      modifies this
      ensures Valid(Abs()) && Abs() == Scheduled(old(Abs())) && HandsOver(old(Abs()), Abs())
    {
      StepValid(Abs(), Event.Schedule);
      ScheduleHandsOver(Abs());
      if run[current] == Runnable && current != IDLE {
        Enqueue(current);
      }
      var next := PickNext();
      if next.Some? {
        Dequeue(next.value);
      }
      current := if next.Some? then next.value else IDLE;
    }
  }
}
