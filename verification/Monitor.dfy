/** Counting semaphores (kern/sync/sem.c, wait.c): a value and a queue of sleeping processes in arrival order. */
module Semaphore {
  import opened Counting

  type Proc = nat

  datatype Sem = Sem(value: nat, queue: seq<Proc>)

  /** sem_init */
  function Init(value: nat): Sem { Sem(value, []) }

  datatype UpResult = Kept | Woke(p: Proc)

  /** __up: the first sleeper, if any, is woken and takes the unit with it; otherwise the value grows */
  function Up(s: Sem): (Sem, UpResult) {
    if s.queue == [] then (s.(value := s.value + 1), Kept)
    else (s.(queue := s.queue[1..]), Woke(s.queue[0]))
  }

  /** __down by process p: true when it passes at once, false when it goes to sleep at the end of the queue */
  function Down(s: Sem, p: Proc): (Sem, bool) {
    if s.value > 0 then (s.(value := s.value - 1), true)
    else (s.(queue := s.queue + [p]), false)
  }

  /** A unit and a sleeper are never there together. */
  predicate Ok(s: Sem) {
    Distinct(s.queue) && (s.value > 0 ==> s.queue == [])
  }

  /** try_down: take a unit if there is one, never sleep */
  function TryDown(s: Sem): (Sem, bool) {
    if s.value > 0 then (s.(value := s.value - 1), true) else (s, false)
  }

  datatype Op = UpOp | DownOp(p: Proc) | TryOp

  /** A process that sleeps here cannot call down again. */
  predicate Legal(s: Sem, op: Op) { op.DownOp? ==> op.p !in s.queue }

  function Do(s: Sem, op: Op): Sem {
    match op
    case UpOp => Up(s).0
    case DownOp(p) => Down(s, p).0
    case TryOp => TryDown(s).0
  }

  /** Whether the operation lets a process through: its own caller, or the sleeper it wakes */
  predicate Grants(s: Sem, op: Op) {
    match op
    case UpOp => Up(s).1.Woke?
    case DownOp(p) => Down(s, p).1
    case TryOp => TryDown(s).1
  }

  predicate LegalRun(s: Sem, ops: seq<Op>)
    decreases |ops|
  {
    ops == [] || (Legal(s, ops[0]) && LegalRun(Do(s, ops[0]), ops[1..]))
  }

  function After(s: Sem, ops: seq<Op>): Sem
    decreases |ops|
  {
    if ops == [] then s else After(Do(s, ops[0]), ops[1..])
  }

  function Granted(s: Sem, ops: seq<Op>): nat
    decreases |ops|
  {
    if ops == [] then 0 else (if Grants(s, ops[0]) then 1 else 0) + Granted(Do(s, ops[0]), ops[1..])
  }

  function Ups(ops: seq<Op>): nat {
    if ops == [] then 0 else (if ops[0].UpOp? then 1 else 0) + Ups(ops[1..])
  }

  /** Units are conserved over every run, and no process sleeps while there is one. */
  lemma {:induction false} UnitsConserved(s: Sem, ops: seq<Op>)
    requires Ok(s) && LegalRun(s, ops)
    ensures Ok(After(s, ops)) && After(s, ops).value + Granted(s, ops) == s.value + Ups(ops)
    decreases |ops|
  {
    if ops != [] {
      DistinctTailIf(s.queue);
      UnitsConserved(Do(s, ops[0]), ops[1..]);
    }
  }

  lemma DistinctTailIf(q: seq<Proc>)
    requires Distinct(q)
    ensures q != [] ==> Distinct(q[1..])
  {}

  /**
    Sleepers are woken in the order in which they went to sleep: the one at position k by the (k+1)-th up of the run.
    */
  lemma {:induction false} WokenInTurn(s: Sem, ops: seq<Op>, k: nat)
    requires Ok(s) && LegalRun(s, ops) && k < |s.queue|
    ensures Ups(ops) <= k ==> var q := After(s, ops).queue; k - Ups(ops) < |q| && q[k - Ups(ops)] == s.queue[k]
    ensures Ups(ops) == k ==> Up(After(s, ops)).1 == Woke(s.queue[k])
    decreases |ops|
  {
    if ops != [] {
      DistinctTailIf(s.queue);
      if ops[0].UpOp? && k > 0 {
        WokenInTurn(Do(s, ops[0]), ops[1..], k - 1);
      } else if !ops[0].UpOp? {
        WokenInTurn(Do(s, ops[0]), ops[1..], k);
      }
    }
  }

  /** semaphore_t, changed in place; `p` is the process that calls */
  class SharedSem {
    var value: nat
    var queue: seq<Proc>

    function Abs(): Sem
      reads this
    {
      Sem(value, queue)
    }

    /** sem_init */
    constructor (value: nat)
      ensures Abs() == Init(value) && Ok(Abs())
    {
      this.value, queue := value, [];
    }

    /** __up: wakes the first sleeper, or keeps the unit */
    method WakeOrKeep() returns (woken: UpResult)
      requires Ok(Abs())
      modifies this
      ensures (Abs(), woken) == Up(old(Abs())) && Ok(Abs())
    {
      if queue == [] {
        value := value + 1;
        woken := Kept;
      } else {
        DistinctTailIf(queue);
        woken := Woke(queue[0]);
        queue := queue[1..];
      }
    }

    /** __down up to the call of schedule: false when the caller now sleeps */
    method PassOrSleep(p: Proc) returns (passed: bool)
      requires Ok(Abs()) && p !in queue
      modifies this
      ensures (Abs(), passed) == Down(old(Abs()), p) && Ok(Abs())
    {
      passed := value > 0;
      if passed {
        value := value - 1;
        return;
      }
      queue := queue + [p];
    }

    /** try_down */
    method TryPass() returns (passed: bool)
      requires Ok(Abs())
      modifies this
      ensures (Abs(), passed) == TryDown(old(Abs())) && Ok(Abs())
    {
      passed := value > 0;
      if passed {
        value := value - 1;
      }
    }
  }
}

/**
  The Hoare monitor of kern/sync/monitor.c as interleaved atomic steps of any number of processes. A process may be
  interrupted between any two semaphore operations; between them only the process holding the monitor touches its
  fields.
  */
module Monitor {
  import opened Counting
  import opened Semaphore

  datatype Cond = Cond(sem: Sem, count: int)

  /** Where a process stands in the code. */
  datatype Pc =
    | Out              // outside the monitor
    | Entering         // asleep in down(mutex)
    | Body             // active in a monitor routine
    | SigUp(c: nat)    // in cond_signal, before up(cv.sem)
    | SigDown(c: nat)  // in cond_signal, before down(next)
    | SigSleep(c: nat) // asleep in down(next)
    | SigDone(c: nat)  // past down(next), before next_count--
    | WaitUp(c: nat)   // in cond_wait, before up(next) or up(mutex)
    | WaitDown(c: nat) // in cond_wait, before down(cv.sem)
    | WaitSleep(c: nat)// asleep in down(cv.sem)
    | WaitDone(c: nat) // past down(cv.sem), before count--

  datatype State = State(mutex: Sem, next: Sem, nextCount: int, cv: seq<Cond>, pc: seq<Pc>)

  predicate Active(pc: Pc) { pc.Body? || pc.SigUp? || pc.SigDone? || pc.WaitUp? || pc.WaitDone? }

  predicate Asleep(pc: Pc) { pc.Entering? || pc.SigSleep? || pc.WaitSleep? }

  predicate InSignal(pc: Pc) { pc.SigUp? || pc.SigDown? || pc.SigSleep? || pc.SigDone? }

  predicate InWait(pc: Pc, c: nat) { pc == WaitUp(c) || pc == WaitDown(c) || pc == WaitSleep(c) || pc == WaitDone(c) }

  /** monitor_init with n processes outside */
  function Init(n: nat, numCv: nat): State {
    State(Semaphore.Init(1), Semaphore.Init(0), 0, seq(numCv, _ => Cond(Semaphore.Init(0), 0)), seq(n, _ => Out))
  }

  /** The process returns from the down it was sleeping in. */
  function Woken(pc: Pc): Pc {
    match pc
    case Entering => Body
    case SigSleep(c) => SigDone(c)
    case WaitSleep(c) => WaitDone(c)
    case _ => pc
  }

  function Wake(pc: seq<Pc>, r: UpResult): (q: seq<Pc>)
    ensures |q| == |pc|
  {
    match r
    case Kept => pc
    case Woke(p) => if p < |pc| then pc[p := Woken(pc[p])] else pc
  }

  function UpMutex(s: State): State {
    var (m, r) := Up(s.mutex);
    s.(mutex := m, pc := Wake(s.pc, r))
  }

  function UpNext(s: State): State {
    var (m, r) := Up(s.next);
    s.(next := m, pc := Wake(s.pc, r))
  }

  function UpCv(s: State, c: nat): State
    requires c < |s.cv|
  {
    var (m, r) := Up(s.cv[c].sem);
    s.(cv := s.cv[c := s.cv[c].(sem := m)], pc := Wake(s.pc, r))
  }

  /** `if (next_count > 0) up(next); else up(mutex);` */
  function Release(s: State): State {
    if s.nextCount > 0 then UpNext(s) else UpMutex(s)
  }

  /** What a process at a choice point does next. */
  datatype Choice = Enter | Signal(c: nat) | Wait(c: nat) | Leave | Go

  /** Process p can take a step; sleeping processes cannot. */
  predicate Enabled(s: State, p: Proc, a: Choice) {
    p < |s.pc| &&
    match s.pc[p]
    case Out => a == Enter
    case Body => (a.Signal? && a.c < |s.cv|) || (a.Wait? && a.c < |s.cv|) || a == Leave
    case SigUp(c) => a == Go && c < |s.cv|
    case SigDown(_) => a == Go
    case SigDone(_) => a == Go
    case WaitUp(_) => a == Go
    case WaitDown(c) => a == Go && c < |s.cv|
    case WaitDone(c) => a == Go && c < |s.cv|
    case _ => false
  }

  function At(s: State, p: Proc, pc: Pc): State
    requires p < |s.pc|
  {
    s.(pc := s.pc[p := pc])
  }

  /** One atomic step of process p. */
  function Step(s: State, p: Proc, a: Choice): State
    requires Enabled(s, p, a)
  {
    match s.pc[p]
    case Out =>
      var (m, ok) := Down(s.mutex, p);
      At(s.(mutex := m), p, if ok then Body else Entering)
    case Body =>
      (match a
       case Signal(c) =>
         if s.cv[c].count > 0 then At(s.(nextCount := s.nextCount + 1), p, SigUp(c)) else s
       case Wait(c) =>
         At(s.(cv := s.cv[c := s.cv[c].(count := s.cv[c].count + 1)]), p, WaitUp(c))
       case _ => Release(At(s, p, Out)))
    case SigUp(c) => UpCv(At(s, p, SigDown(c)), c)
    case SigDown(c) =>
      var (m, ok) := Down(s.next, p);
      At(s.(next := m), p, if ok then SigDone(c) else SigSleep(c))
    case SigDone(_) => At(s.(nextCount := s.nextCount - 1), p, Body)
    case WaitUp(c) => Release(At(s, p, WaitDown(c)))
    case WaitDown(c) =>
      var (m, ok) := Down(s.cv[c].sem, p);
      At(s.(cv := s.cv[c := s.cv[c].(sem := m)]), p, if ok then WaitDone(c) else WaitSleep(c))
    case WaitDone(c) =>
      At(s.(cv := s.cv[c := s.cv[c].(count := s.cv[c].count - 1)]), p, Body)
    case _ => s
  }

  // --- the invariant: one entry token, wherever it is ---

  /** Where the monitor's single entry token is; Nowhere only in the middle of a step. */
  datatype Token = AtMutex | AtNext | AtCv(c: nat) | With(p: Proc) | Nowhere

  function Signallers(pc: seq<Pc>): set<Proc> { set p: Proc | p < |pc| && InSignal(pc[p]) }

  function Waiters(pc: seq<Pc>, c: nat): set<Proc> { set p: Proc | p < |pc| && InWait(pc[p], c) }

  function Unit(b: bool): nat { if b then 1 else 0 }

  /** Every semaphore holds the token exactly when it is there, and its queue is the set of processes asleep on it. */
  ghost predicate MutexOk(s: State, t: Token) {
    && Ok(s.mutex) && s.mutex.value == Unit(t.AtMutex?)
    && (forall p: Proc :: p in s.mutex.queue <==> p < |s.pc| && s.pc[p].Entering?)
  }

  ghost predicate NextOk(s: State, t: Token) {
    && Ok(s.next) && s.next.value == Unit(t.AtNext?)
    && (forall p: Proc :: p in s.next.queue <==> p < |s.pc| && s.pc[p].SigSleep?)
  }

  ghost predicate CvOk(s: State, t: Token, c: nat)
    requires c < |s.cv|
  {
    && Ok(s.cv[c].sem) && s.cv[c].sem.value == Unit(t == AtCv(c))
    && (forall p: Proc :: p in s.cv[c].sem.queue <==> p < |s.pc| && s.pc[p] == WaitSleep(c))
    && s.cv[c].count == |Waiters(s.pc, c)|
  }

  /** The token is held by the one active process, or there is a process on its way to take it. */
  ghost predicate TokenOk(s: State, t: Token) {
    && (forall p: Proc | p < |s.pc| :: Active(s.pc[p]) <==> t == With(p))
    && (t.With? ==> t.p < |s.pc|)
    && (t.AtMutex? ==> s.nextCount == 0)
    && (t.AtNext? ==> exists p: Proc :: p < |s.pc| && s.pc[p].SigDown?)
    && (t.AtCv? ==> t.c < |s.cv| && exists p: Proc :: p < |s.pc| && s.pc[p] == WaitDown(t.c))
  }

  ghost predicate PcOk(s: State, pc: Pc) {
    && (pc.SigUp? ==> pc.c < |s.cv| && s.cv[pc.c].count > 0)
    && (pc.WaitUp? || pc.WaitDown? || pc.WaitSleep? || pc.WaitDone? ==> pc.c < |s.cv|)
  }

  ghost predicate InvAt(s: State, t: Token) {
    && MutexOk(s, t)
    && NextOk(s, t)
    && (forall c: nat | c < |s.cv| :: CvOk(s, t, c))
    && s.nextCount == |Signallers(s.pc)|
    && TokenOk(s, t)
    && (forall p: Proc | p < |s.pc| :: PcOk(s, s.pc[p]))
  }

  ghost predicate Inv(s: State) {
    exists t: Token :: t != Nowhere && InvAt(s, t)
  }

  lemma InitInv(n: nat, numCv: nat)
    ensures Inv(Init(n, numCv))
  {
    var s := Init(n, numCv);
    assert Signallers(s.pc) == {};
    forall c: nat | c < |s.cv| ensures CvOk(s, AtMutex, c) {
      assert Waiters(s.pc, c) == {};
    }
    assert InvAt(s, AtMutex);
  }

  /** Who is signalling or waiting after one process has moved. */
  lemma CountsAfter(pc: seq<Pc>, p: Proc, x: Pc, c: nat)
    requires p < |pc|
    ensures Signallers(pc[p := x]) == (if InSignal(x) then Signallers(pc) + {p} else Signallers(pc) - {p})
    ensures Waiters(pc[p := x], c) == (if InWait(x, c) then Waiters(pc, c) + {p} else Waiters(pc, c) - {p})
    ensures p in Signallers(pc) <==> InSignal(pc[p])
    ensures p in Waiters(pc, c) <==> InWait(pc[p], c)
  {
  }

  /** The active process gives up the token on its way out, into down(next) or into down(cv.sem). */
  lemma Surrender(s: State, p: Proc, x: Pc)
    requires InvAt(s, With(p)) && !Active(x) && !Asleep(x) && PcOk(s, x)
    requires InSignal(x) == InSignal(s.pc[p]) && (forall c: nat :: InWait(x, c) == InWait(s.pc[p], c))
    ensures InvAt(At(s, p, x), Nowhere)
  {
    hide Signallers, Waiters, Ok, InSignal, InWait;
    var r := At(s, p, x);
    CountsAfter(s.pc, p, x, 0);
    assert Signallers(r.pc) == Signallers(s.pc);
    forall c: nat | c < |s.cv| ensures CvOk(r, Nowhere, c) {
      CountsAfter(s.pc, p, x, c);
      assert Waiters(r.pc, c) == Waiters(s.pc, c);
      assert CvOk(s, With(p), c);
    }
    forall q: Proc | q < |r.pc| ensures PcOk(r, r.pc[q]) {
      assert PcOk(s, s.pc[q]);
    }
  }

  /** Waking a sleeper moves it past its down and changes no count. */
  lemma WakeCounts(pc: seq<Pc>, q: Proc, c: nat)
    requires q < |pc|
    ensures Signallers(pc[q := Woken(pc[q])]) == Signallers(pc)
    ensures Waiters(pc[q := Woken(pc[q])], c) == Waiters(pc, c)
  {
    CountsAfter(pc, q, Woken(pc[q]), c);
  }

  /** A process that moves without changing what it counts as leaves the condition variables as they were. */
  lemma SameCounts(s: State, r: State, p: Proc, t: Token, u: Token)
    requires InvAt(s, t) && p < |s.pc| && |r.pc| == |s.pc| && r.pc == s.pc[p := r.pc[p]] && r.cv == s.cv
    requires InSignal(r.pc[p]) == InSignal(s.pc[p]) && (forall c: nat :: InWait(r.pc[p], c) == InWait(s.pc[p], c))
    requires !s.pc[p].WaitSleep? && !r.pc[p].WaitSleep?
    requires forall c: nat :: u == AtCv(c) <==> t == AtCv(c)
    requires PcOk(s, r.pc[p])
    ensures Signallers(r.pc) == Signallers(s.pc)
    ensures forall c: nat | c < |r.cv| :: CvOk(r, u, c)
    ensures forall q: Proc | q < |r.pc| :: PcOk(r, r.pc[q])
  {
    hide Signallers, Waiters, Ok, InSignal, InWait, MutexOk, NextOk, TokenOk;
    CountsAfter(s.pc, p, r.pc[p], 0);
    assert Signallers(r.pc) == Signallers(s.pc);
    forall c: nat | c < |s.cv| ensures CvOk(r, u, c) {
      CountsAfter(s.pc, p, r.pc[p], c);
      assert Waiters(r.pc, c) == Waiters(s.pc, c);
      assert CvOk(s, t, c);
    }
    forall q: Proc | q < |r.pc| ensures PcOk(r, r.pc[q]) {
      assert PcOk(s, s.pc[q]);
    }
  }

  /** up(mutex) by a process leaving with nobody waiting on next */
  lemma UpMutexInv(s: State)
    requires InvAt(s, Nowhere) && s.nextCount == 0
    ensures Inv(UpMutex(s))
  {
    hide Signallers, Waiters, CvOk, PcOk, Distinct;
    var r := UpMutex(s);
    if s.mutex.queue == [] {
      ElsewhereSame(s, r, AtMutex);
      assert InvAt(r, AtMutex);
    } else {
      var q := s.mutex.queue[0];
      assert q in s.mutex.queue;
      DistinctTail(s.mutex.queue);
      PassedPcOk(s, q);
      SameCounts(s, r, q, Nowhere, With(q));
      assert InvAt(r, With(q));
    }
  }

  lemma PassedPcOk(s: State, q: Proc)
    requires q < |s.pc| && (s.pc[q].Entering? || s.pc[q].SigSleep?)
    ensures PcOk(s, Woken(s.pc[q]))
  {}

  lemma ElsewhereSame(s: State, r: State, t: Token)
    requires InvAt(s, Nowhere) && r.pc == s.pc && r.cv == s.cv && !t.AtCv?
    ensures forall c: nat | c < |r.cv| :: CvOk(r, t, c)
    ensures forall q: Proc | q < |r.pc| :: PcOk(r, r.pc[q])
  {
    hide Signallers, Waiters, Ok, MutexOk, NextOk, TokenOk;
    forall c: nat | c < |r.cv| ensures CvOk(r, t, c) {
      assert CvOk(s, Nowhere, c);
    }
    forall q: Proc | q < |r.pc| ensures PcOk(r, r.pc[q]) {
      assert PcOk(s, s.pc[q]);
    }
  }

  /** up(next) while somebody is signalling: the token reaches a signaller */
  lemma UpNextInv(s: State)
    requires InvAt(s, Nowhere) && s.nextCount > 0
    ensures Inv(UpNext(s))
  {
    hide Waiters, CvOk, PcOk, Distinct;
    var r := UpNext(s);
    if s.next.queue == [] {
      var w :| w in Signallers(s.pc);
      assert s.pc[w].SigDown?;
      ElsewhereSame(s, r, AtNext);
      assert InvAt(r, AtNext);
    } else {
      var q := s.next.queue[0];
      assert q in s.next.queue;
      DistinctTail(s.next.queue);
      PassedPcOk(s, q);
      SameCounts(s, r, q, Nowhere, With(q));
      assert InvAt(r, With(q));
    }
  }

  /** up(cv.sem) while somebody waits on the condition: the token reaches a waiter */
  lemma UpCvInv(s: State, c: nat)
    requires InvAt(s, Nowhere) && c < |s.cv| && s.cv[c].count > 0
    ensures Inv(UpCv(s, c))
  {
    assert CvOk(s, Nowhere, c);
    var w :| w in Waiters(s.pc, c);
    assert s.pc[w] == WaitDown(c) || w in s.cv[c].sem.queue;
    if s.cv[c].sem.queue == [] {
      CvKeepsToken(s, c, w);
    } else {
      CvHandsOver(s, c);
    }
  }

  lemma CvKeepsToken(s: State, c: nat, w: Proc)
    requires InvAt(s, Nowhere) && c < |s.cv| && s.cv[c].sem.queue == [] && w < |s.pc| && s.pc[w] == WaitDown(c)
    ensures InvAt(UpCv(s, c), AtCv(c))
  {
    hide Signallers, Waiters;
    var r := UpCv(s, c);
    forall d: nat | d < |r.cv| ensures CvOk(r, AtCv(c), d) {
      assert CvOk(s, Nowhere, d);
    }
    assert forall p: Proc | p < |s.pc| :: PcOk(s, s.pc[p]) ==> PcOk(r, r.pc[p]);
  }

  lemma CvHandsOver(s: State, c: nat)
    requires InvAt(s, Nowhere) && c < |s.cv| && s.cv[c].sem.queue != []
    ensures InvAt(UpCv(s, c), With(s.cv[c].sem.queue[0]))
  {
    hide Signallers, Waiters;
    var r, q := UpCv(s, c), s.cv[c].sem.queue[0];
    assert CvOk(s, Nowhere, c);
    assert q in s.cv[c].sem.queue;
    DistinctTail(s.cv[c].sem.queue);
    WakeCounts(s.pc, q, 0);
    forall d: nat | d < |r.cv| ensures CvOk(r, With(q), d) {
      WakeCounts(s.pc, q, d);
      assert CvOk(s, Nowhere, d);
    }
    forall p: Proc | p < |r.pc| ensures PcOk(r, r.pc[p]) {
      assert PcOk(s, s.pc[p]);
    }
  }

  /** down(mutex), down(next) or down(cv.sem): pass with the token if it is there, sleep otherwise. */
  lemma DownInv(s: State, p: Proc, t: Token)
    requires InvAt(s, t) && t != Nowhere && p < |s.pc|
    requires s.pc[p].Out? || s.pc[p].SigDown? || s.pc[p].WaitDown?
    requires var a := if s.pc[p].Out? then Enter else Go; Enabled(s, p, a)
    ensures var a := if s.pc[p].Out? then Enter else Go; Inv(Step(s, p, a))
  {
    match s.pc[p]
    case Out => DownMutexInv(s, p, t);
    case SigDown(c) => DownNextInv(s, p, t);
    case WaitDown(c) => DownCvInv(s, p, t);
  }

  lemma DownMutexInv(s: State, p: Proc, t: Token)
    requires InvAt(s, t) && t != Nowhere && p < |s.pc| && s.pc[p].Out?
    ensures Inv(Step(s, p, Enter))
  {
    hide Signallers, Waiters, CvOk, Distinct;
    var r := Step(s, p, Enter);
    var u := if t.AtMutex? then With(p) else t;
    SameCounts(s, r, p, t, u);
    DistinctAppend(s.mutex.queue, p);
    StillComing(s, r, p, t);
    assert InvAt(r, u);
  }

  /** A process on its way to a token stays on its way while another process moves. */
  lemma StillComing(s: State, r: State, p: Proc, t: Token)
    requires TokenOk(s, t) && p < |s.pc| && |r.pc| == |s.pc| && |r.cv| == |s.cv|
    requires forall q: Proc | q < |s.pc| && q != p :: r.pc[q] == s.pc[q]
    ensures t.AtNext? && !s.pc[p].SigDown? ==> exists q: Proc :: q < |r.pc| && r.pc[q].SigDown?
    ensures t.AtCv? && s.pc[p] != WaitDown(t.c) ==> exists q: Proc :: q < |r.pc| && r.pc[q] == WaitDown(t.c)
  {
    if t.AtNext? && !s.pc[p].SigDown? {
      var w: Proc :| w < |s.pc| && s.pc[w].SigDown?;
      assert r.pc[w] == s.pc[w];
    }
    if t.AtCv? && s.pc[p] != WaitDown(t.c) {
      var w: Proc :| w < |s.pc| && s.pc[w] == WaitDown(t.c);
      assert r.pc[w] == s.pc[w];
    }
  }

  lemma DownNextInv(s: State, p: Proc, t: Token)
    requires InvAt(s, t) && t != Nowhere && p < |s.pc| && s.pc[p].SigDown?
    ensures Inv(Step(s, p, Go))
  {
    hide Signallers, Waiters, CvOk, Distinct;
    var r := Step(s, p, Go);
    var u := if t.AtNext? then With(p) else t;
    SameCounts(s, r, p, t, u);
    DistinctAppend(s.next.queue, p);
    StillComing(s, r, p, t);
    assert InvAt(r, u);
  }

  lemma DownCvInv(s: State, p: Proc, t: Token)
    requires InvAt(s, t) && t != Nowhere && p < |s.pc| && s.pc[p].WaitDown?
    requires Enabled(s, p, Go)
    ensures Inv(Step(s, p, Go))
  {
    hide Signallers, Waiters, CvOk, PcOk, Distinct;
    var r, d := Step(s, p, Go), s.pc[p].c;
    var u := if t == AtCv(d) then With(p) else t;
    DownCvConds(s, p, t, u);
    StillComing(s, r, p, t);
    assert InvAt(r, u);
  }

  lemma DownCvConds(s: State, p: Proc, t: Token, u: Token)
    requires InvAt(s, t) && p < |s.pc| && s.pc[p].WaitDown?
    requires Enabled(s, p, Go)
    requires u == if t == AtCv(s.pc[p].c) then With(p) else t
    ensures var r, d := Step(s, p, Go), s.pc[p].c;
      && Signallers(r.pc) == Signallers(s.pc)
      && (forall c: nat | c < |s.cv| :: CvOk(r, u, c))
      && (forall q: Proc | q < |r.pc| :: PcOk(r, r.pc[q]))
      && r.pc[p] == (if t == AtCv(d) then WaitDone(d) else WaitSleep(d))
  {
    hide Signallers, Waiters, MutexOk, NextOk, TokenOk;
    var r, d := Step(s, p, Go), s.pc[p].c;
    CountsAfter(s.pc, p, r.pc[p], 0);
    assert Signallers(r.pc) == Signallers(s.pc);
    assert CvOk(s, t, d);
    forall c: nat | c < |s.cv| ensures CvOk(r, u, c) {
      CountsAfter(s.pc, p, r.pc[p], c);
      assert Waiters(r.pc, c) == Waiters(s.pc, c);
      assert CvOk(s, t, c);
      DistinctAppend(s.cv[c].sem.queue, p);
    }
    forall q: Proc | q < |r.pc| ensures PcOk(r, r.pc[q]) {
      assert PcOk(s, s.pc[q]);
    }
  }

  /** A counter and the position of the process it counts change together. */
  ghost predicate CountedMove(s: State, r: State, p: Proc)
    requires p < |s.pc|
  {
    && |r.pc| == |s.pc| && r.pc == s.pc[p := r.pc[p]]
    && r.mutex == s.mutex && r.next == s.next && |r.cv| == |s.cv|
    && r.nextCount - s.nextCount == Unit(InSignal(r.pc[p])) - Unit(InSignal(s.pc[p]))
    && (forall c: nat | c < |s.cv| :: r.cv[c].sem == s.cv[c].sem &&
          r.cv[c].count - s.cv[c].count == Unit(InWait(r.pc[p], c)) - Unit(InWait(s.pc[p], c)))
  }

  lemma StillActive(s: State, r: State, p: Proc)
    requires InvAt(s, With(p)) && CountedMove(s, r, p) && Active(r.pc[p]) && PcOk(r, r.pc[p])
    ensures InvAt(r, With(p))
  {
    hide Signallers, Waiters, InSignal, InWait, Ok, CvOk, PcOk;
    CountsAfter(s.pc, p, r.pc[p], 0);
    forall c: nat | c < |s.cv| ensures CvOk(r, With(p), c) {
      StillCounted(s, r, p, c);
    }
    forall q: Proc | q < |r.pc| ensures PcOk(r, r.pc[q]) {
      assert PcOk(s, s.pc[q]);
      assert q != p ==> !Active(s.pc[q]);
      InactivePcOk(s, r, s.pc[q]);
    }
  }

  lemma InactivePcOk(s: State, r: State, pc: Pc)
    requires PcOk(s, pc) && |r.cv| == |s.cv|
    ensures !Active(pc) ==> PcOk(r, pc)
  {}

  lemma StillCounted(s: State, r: State, p: Proc, c: nat)
    requires p < |s.pc| && CountedMove(s, r, p) && Active(s.pc[p]) && Active(r.pc[p])
    requires c < |s.cv| && CvOk(s, With(p), c)
    ensures CvOk(r, With(p), c)
  {
    hide Signallers, Waiters, InSignal, InWait, Ok;
    CountsAfter(s.pc, p, r.pc[p], c);
  }

  /** The active process starts or finishes a signal or a wait. */
  lemma CountInv(s: State, p: Proc, a: Choice)
    requires InvAt(s, With(p)) && Enabled(s, p, a)
    requires (s.pc[p].Body? && (a.Signal? || a.Wait?)) || s.pc[p].SigDone? || s.pc[p].WaitDone?
    ensures Inv(Step(s, p, a))
  {
    hide Signallers, Waiters, MutexOk, NextOk, CvOk, TokenOk;
    var r := Step(s, p, a);
    if r != s {
      StillActive(s, r, p);
    }
  }

  /** Every step of every process keeps the invariant. */
  lemma StepInv(s: State, p: Proc, a: Choice)
    requires Inv(s) && Enabled(s, p, a)
    ensures Inv(Step(s, p, a))
  {
    hide MutexOk, NextOk, CvOk, Signallers, Waiters;
    var t: Token :| t != Nowhere && InvAt(s, t);
    if !Active(s.pc[p]) {
      DownInv(s, p, t);
    } else {
      match s.pc[p]
      case Body =>
        if a == Leave {
          Surrender(s, p, Out);
          ReleaseInv(At(s, p, Out));
        } else {
          CountInv(s, p, a);
        }
      case SigUp(c) =>
        assert PcOk(s, s.pc[p]);
        SurrenderForSignal(s, p);
      case WaitUp(c) =>
        assert PcOk(s, s.pc[p]);
        SurrenderForWait(s, p);
      case SigDone(_) => CountInv(s, p, a);
      case WaitDone(_) => CountInv(s, p, a);
      case _ =>
    }
  }

  lemma ReleaseInv(s: State)
    requires InvAt(s, Nowhere)
    ensures Inv(Release(s))
  {
    hide MutexOk, NextOk, CvOk, Signallers, PcOk;
    if s.nextCount > 0 {
      UpNextInv(s);
    } else {
      UpMutexInv(s);
    }
  }

  lemma SurrenderForSignal(s: State, p: Proc)
    requires InvAt(s, With(p)) && s.pc[p].SigUp? && Enabled(s, p, Go)
    ensures Inv(Step(s, p, Go))
  {
    hide MutexOk, NextOk, CvOk, Signallers;
    var c := s.pc[p].c;
    assert PcOk(s, s.pc[p]);
    Surrender(s, p, SigDown(c));
    UpCvInv(At(s, p, SigDown(c)), c);
  }

  lemma SurrenderForWait(s: State, p: Proc)
    requires InvAt(s, With(p)) && s.pc[p].WaitUp? && Enabled(s, p, Go)
    ensures Inv(Step(s, p, Go))
  {
    hide MutexOk, NextOk, CvOk, Signallers;
    var c := s.pc[p].c;
    assert PcOk(s, s.pc[p]);
    Surrender(s, p, WaitDown(c));
    ReleaseInv(At(s, p, WaitDown(c)));
  }

  // --- what the invariant means for every run ---

  datatype Move = Move(p: Proc, a: Choice)

  /** A run: each move is enabled where it is taken. */
  ghost predicate IsRun(s: State, moves: seq<Move>, r: State)
    decreases |moves|
  {
    if moves == [] then r == s
    else Enabled(s, moves[0].p, moves[0].a) && IsRun(Step(s, moves[0].p, moves[0].a), moves[1..], r)
  }

  lemma {:induction false} RunInv(s: State, moves: seq<Move>, r: State)
    requires Inv(s) && IsRun(s, moves, r)
    ensures Inv(r)
    decreases |moves|
  {
    hide Inv, Step, Enabled;
    if moves != [] {
      StepInv(s, moves[0].p, moves[0].a);
      RunInv(Step(s, moves[0].p, moves[0].a), moves[1..], r);
    }
  }

  function ActiveSet(pc: seq<Pc>): set<Proc> { set p: Proc | p < |pc| && Active(pc[p]) }

  function CvUnits(cv: seq<Cond>): nat {
    if cv == [] then 0 else cv[0].sem.value + CvUnits(cv[1..])
  }

  /** Entry tokens in the system: in the semaphores and with active (or just woken) processes. */
  function Tokens(s: State): nat {
    s.mutex.value + s.next.value + CvUnits(s.cv) + |ActiveSet(s.pc)|
  }

  lemma {:induction false} CvUnitsAre(cv: seq<Cond>, c: nat, present: bool)
    requires forall d: nat | d < |cv| :: cv[d].sem.value == Unit(present && d == c)
    ensures CvUnits(cv) == Unit(present && c < |cv|)
  {
    if cv != [] {
      if c == 0 {
        CvUnitsAre(cv[1..], 0, false);
      } else {
        CvUnitsAre(cv[1..], c - 1, present);
      }
    }
  }

  /** Exactly one entry token exists, so at most one process is active in the monitor. */
  lemma OneToken(s: State)
    requires Inv(s)
    ensures Tokens(s) == 1
    ensures forall p: Proc, q: Proc | p < |s.pc| && q < |s.pc| && Active(s.pc[p]) && Active(s.pc[q]) :: p == q
  {
    hide MutexOk, NextOk, Signallers, Waiters, PcOk;
    var t: Token :| t != Nowhere && InvAt(s, t);
    forall c: nat | c < |s.cv| ensures s.cv[c].sem.value == Unit(t.AtCv? && c == (if t.AtCv? then t.c else 0)) {
      assert CvOk(s, t, c);
    }
    CvUnitsAre(s.cv, if t.AtCv? then t.c else 0, t.AtCv?);
    assert ActiveSet(s.pc) == if t.With? then {t.p} else {};
    assert s.mutex.value == Unit(t.AtMutex?) && s.next.value == Unit(t.AtNext?) by {
      TokenSems(s, t);
    }
  }

  lemma TokenSems(s: State, t: Token)
    requires InvAt(s, t)
    ensures s.mutex.value == Unit(t.AtMutex?) && s.next.value == Unit(t.AtNext?)
    ensures t.AtMutex? ==> s.mutex.queue == []
  {
    hide CvOk, Signallers, PcOk;
  }

  /**
    The token is never stranded: it is on mutex with nobody asleep there and no signaller pending, or some process is
    able to go on with it.
    */
  lemma TokenNeverStranded(s: State)
    requires Inv(s)
    ensures
      || (s.mutex.value == 1 && s.mutex.queue == [] && s.nextCount == 0)
      || (exists p: Proc, a: Choice :: Enabled(s, p, a) && Active(Step(s, p, a).pc[p]) && !Active(s.pc[p]))
      || (exists p: Proc, a: Choice :: Enabled(s, p, a) && Active(s.pc[p]))
  {
    hide Signallers, Waiters;
    var t: Token :| t != Nowhere && InvAt(s, t);
    match t
    case AtMutex =>
    case AtNext =>
      var p: Proc :| p < |s.pc| && s.pc[p].SigDown?;
      assert Enabled(s, p, Go);
    case AtCv(c) =>
      var p: Proc :| p < |s.pc| && s.pc[p] == WaitDown(c);
      assert CvOk(s, t, c);
      assert Enabled(s, p, Go);
    case With(p) =>
      assert PcOk(s, s.pc[p]);
      assert Enabled(s, p, if s.pc[p].Body? then Leave else Go);
    case Nowhere =>
  }

  /**
    A unit on next or on a condition always has a process there to take it, and every counted process is really there.
    */
  lemma NoLostSignal(s: State)
    requires Inv(s)
    ensures s.next.value > 0 ==> exists p: Proc :: p < |s.pc| && s.pc[p].SigDown?
    ensures forall c: nat | c < |s.cv| && s.cv[c].sem.value > 0 ::
              exists p: Proc :: p < |s.pc| && s.pc[p] == WaitDown(c)
    ensures s.mutex.value > 0 ==> s.nextCount == 0
    ensures s.nextCount == |Signallers(s.pc)|
    ensures forall c: nat | c < |s.cv| :: s.cv[c].count == |Waiters(s.pc, c)|
  {
    hide Signallers, Waiters, PcOk;
    var t: Token :| t != Nowhere && InvAt(s, t);
    forall c: nat | c < |s.cv| ensures s.cv[c].count == |Waiters(s.pc, c)| {
      assert CvOk(s, t, c);
    }
    forall c: nat | c < |s.cv| && s.cv[c].sem.value > 0 ensures exists p: Proc :: p < |s.pc| && s.pc[p] == WaitDown(c) {
      assert CvOk(s, t, c);
    }
  }

  // --- what one step can do to the others, for code built on the monitor ---

  /** Where process p may be after its step. */
  predicate Follows(s: State, p: Proc, a: Choice, pc: Pc)
    requires Enabled(s, p, a)
  {
    match s.pc[p]
    case Out => pc.Entering? || pc.Body?
    case Body =>
      (match a
       case Signal(c) => if s.cv[c].count > 0 then pc == SigUp(c) else pc.Body?
       case Wait(c) => pc == WaitUp(c)
       case _ => pc.Out?)
    case SigUp(c) => pc == SigDown(c)
    case SigDown(c) => pc == SigDone(c) || pc == SigSleep(c)
    case SigDone(_) => pc.Body?
    case WaitUp(c) => pc == WaitDown(c)
    case WaitDown(c) => (pc == WaitDone(c) && s.cv[c].sem.value > 0) || pc == WaitSleep(c)
    case WaitDone(_) => pc.Body?
    case _ => false
  }

  /**
    Another process is left alone, or woken from its sleep; a condition wait is only ended by a signal to that
    condition.
    */
  predicate LeftOrWoken(s: State, p: Proc, before: Pc, after: Pc)
    requires p < |s.pc|
  {
    || after == before
    || (Asleep(before) && after == Woken(before) && (before.WaitSleep? ==> s.pc[p] == SigUp(before.c)))
  }

  predicate Roused(before: Pc, after: Pc, c: nat) { before == WaitSleep(c) && after == WaitDone(c) }

  lemma StepEffect(s: State, p: Proc, a: Choice)
    requires Inv(s) && Enabled(s, p, a)
    ensures var r := Step(s, p, a);
      && |r.pc| == |s.pc| && |r.cv| == |s.cv|
      && Follows(s, p, a, r.pc[p])
      && (forall q: Proc | q < |s.pc| && q != p :: LeftOrWoken(s, p, s.pc[q], r.pc[q]))
      && (forall c: nat | c < |s.cv| && r.cv[c].sem.value > 0 :: s.cv[c].sem.value > 0 || s.pc[p] == SigUp(c))
      && (forall c: nat | c < |s.cv| && s.cv[c].sem.value > 0 :: r.cv[c].sem.value > 0 || s.pc[p] == WaitDown(c))
      && (s.pc[p].SigUp? ==>
            || r.cv[s.pc[p].c].sem.value > 0
            || exists q: Proc :: q < |s.pc| && q != p && Roused(s.pc[q], r.pc[q], s.pc[p].c))
  {
    hide Signallers, Waiters, PcOk, TokenOk;
    var t: Token :| t != Nowhere && InvAt(s, t);
    if s.pc[p].SigUp? {
      var c := s.pc[p].c;
      assert CvOk(s, t, c);
      if s.cv[c].sem.queue != [] {
        var q := s.cv[c].sem.queue[0];
        assert q in s.cv[c].sem.queue;
        assert Roused(s.pc[q], Step(s, p, a).pc[q], c);
      }
    }
  }
}
