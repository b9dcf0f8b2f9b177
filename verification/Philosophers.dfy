/**
  The monitor solution of kern/sync/check_sync.c for any ring of at least two philosophers. Every read or write of the
  shared state array is a step of its own, so what keeps the array consistent is the monitor below it.
  */
module Philosophers {
  import opened Semaphore
  import M = Monitor

  datatype Mood = Thinking | Hungry | Eating

  /** What follows a call of phi_test_condvar: the check in take_forks, the test of the right neighbour, or leaving. */
  datatype After = ThenCheck | ThenRight | ThenLeave

  /** Where philosopher i is in phi_take_forks_condvar(i) or phi_put_forks_condvar(i). */
  datatype Code =
    | Idle
    | TakeIn                     // about to set HUNGRY
    | PutIn                      // about to set THINKING
    | Test(k: nat, after: After) // about to evaluate the condition of phi_test_condvar(k)
    | Set(k: nat, after: After)  // condition true, about to set k EATING
    | Sig(k: nat, after: After)  // about to cond_signal(cv[k])
    | Check                      // about to evaluate `state[i] != EATING`
    | Waiting                    // in cond_wait(cv[i])
    | Leaving(took: bool)        // about to release the monitor

  datatype State = State(m: M.State, mood: seq<Mood>, code: seq<Code>)

  predicate Shape(s: State) {
    |s.mood| >= 2 && |s.code| == |s.mood| && |s.m.pc| == |s.mood| && |s.m.cv| == |s.mood|
  }

  /** LEFT and RIGHT of philosopher i, in a ring of n */
  function Left(i: nat, n: nat): nat
    requires i < n
  {
    if i == 0 then n - 1 else i - 1
  }

  function Right(i: nat, n: nat): nat
    requires i < n
  {
    if i == n - 1 then 0 else i + 1
  }

  function Init(n: nat): State
    requires n >= 2
  {
    State(M.Init(n, n), seq(n, _ => Thinking), seq(n, _ => Idle))
  }

  function Resume(i: nat, n: nat, after: After): Code
    requires i < n
  {
    match after
    case ThenCheck => Check
    case ThenRight => Test(Right(i, n), ThenLeave)
    case ThenLeave => Leaving(false)
  }

  predicate MayEat(s: State, k: nat)
    requires Shape(s) && k < |s.mood|
  {
    s.mood[k] == Hungry && s.mood[Left(k, |s.mood|)] != Eating && s.mood[Right(k, |s.mood|)] != Eating
  }

  /** The monitor operation, if any, that philosopher i performs next. */
  function MonitorMove(s: State, i: nat): (a: M.Choice)
    requires Shape(s) && i < |s.mood|
  {
    if s.m.pc[i].Out? then M.Enter
    else if !s.m.pc[i].Body? then M.Go
    else match s.code[i]
      case Sig(k, _) => M.Signal(k)
      case Check => M.Wait(i)
      case _ => M.Leave
  }

  /** Philosopher i can move: it is not asleep, and its targets are philosophers. */
  predicate Enabled(s: State, i: nat) {
    && Shape(s) && i < |s.mood|
    && (s.m.pc[i].Body? && (s.code[i].Test? || s.code[i].Set?) ==> s.code[i].k < |s.mood|)
    && (s.m.pc[i].Body? ==> !s.code[i].Idle?)
    && M.Enabled(s.m, i, MonitorMove(s, i))
  }

  function Goto(s: State, i: nat, c: Code): State
    requires i < |s.code|
  {
    s.(code := s.code[i := c])
  }

  /**
    Outside the monitor a thinking philosopher calls take_forks and an eating one put_forks; both begin with
    down(mutex).
    */
  function StepOutside(s: State, i: nat): State
    requires Enabled(s, i) && s.m.pc[i].Out?
  {
    Goto(s.(m := M.Step(s.m, i, M.Enter)), i, if s.mood[i].Eating? then PutIn else TakeIn)
  }

  /** One step of the routine's own code, taken while active in the monitor. */
  function StepBody(s: State, i: nat): State
    requires Enabled(s, i) && s.m.pc[i].Body?
  {
    var n := |s.mood|;
    match s.code[i]
    case TakeIn => Goto(s.(mood := s.mood[i := Hungry]), i, Test(i, ThenCheck))
    case PutIn => Goto(s.(mood := s.mood[i := Thinking]), i, Test(Left(i, n), ThenRight))
    case Test(k, after) => Goto(s, i, if MayEat(s, k) then Set(k, after) else Resume(i, n, after))
    case Set(k, after) => Goto(s.(mood := s.mood[k := Eating]), i, Sig(k, after))
    case Sig(k, after) => Goto(s.(m := M.Step(s.m, i, M.Signal(k))), i, Resume(i, n, after))
    case Check =>
      if s.mood[i] != Eating then Goto(s.(m := M.Step(s.m, i, M.Wait(i))), i, Waiting) else Goto(s, i, Leaving(true))
    case Waiting => Goto(s, i, Leaving(true))
    case Leaving(_) => Goto(s.(m := M.Step(s.m, i, M.Leave)), i, Idle)
    case Idle => s
  }

  /** One atomic step of philosopher i; inside a monitor operation its own code does not advance. */
  function Step(s: State, i: nat): State
    requires Enabled(s, i)
  {
    if s.m.pc[i].Out? then StepOutside(s, i)
    else if s.m.pc[i].Body? then StepBody(s, i)
    else s.(m := M.Step(s.m, i, M.Go))
  }

  /** Philosophers run on the monitor: each of their steps is a monitor step or leaves the monitor alone. */
  lemma StepKeepsMonitor(s: State, i: nat)
    requires Enabled(s, i) && M.Inv(s.m)
    ensures M.Inv(Step(s, i).m)
  {
    hide M.Inv, M.Step;
    if Step(s, i).m != s.m {
      M.StepInv(s.m, i, MonitorMove(s, i));
    }
  }

  // --- the invariant ---

  ghost predicate HasEatingNeighbour(s: State, k: nat)
    requires Shape(s) && k < |s.mood|
  {
    s.mood[Left(k, |s.mood|)] == Eating || s.mood[Right(k, |s.mood|)] == Eating
  }

  predicate Target(i: nat, n: nat, k: nat, after: After)
    requires i < n
  {
    k == match after
      case ThenCheck => i
      case ThenRight => Left(i, n)
      case ThenLeave => Right(i, n)
  }

  /** In the body, or inside cond_signal after which the body goes on */
  predicate BodyOrSignal(pc: M.Pc) { pc.Body? || M.InSignal(pc) }

  /** What philosopher i's position in the code says about its own mood, its targets and its position in the monitor. */
  ghost predicate PhilOk(s: State, i: nat)
    requires Shape(s) && i < |s.mood|
  {
    var n, pc, mood := |s.mood|, s.m.pc[i], s.mood[i];
    match s.code[i]
    case Idle => pc.Out? && mood != Hungry
    case TakeIn => (pc.Entering? || pc.Body?) && mood == Thinking
    case PutIn => (pc.Entering? || pc.Body?) && mood == Eating
    case Test(k, after) =>
      && Target(i, n, k, after)
      && (if after == ThenLeave then BodyOrSignal(pc) else pc.Body?)
      && mood == (if after == ThenCheck then Hungry else Thinking)
    case Set(k, after) =>
      pc.Body? && Target(i, n, k, after) && MayEat(s, k) && mood == (if after == ThenCheck then Hungry else Thinking)
    case Sig(k, after) =>
      && pc.Body? && Target(i, n, k, after) && s.mood[k] == Eating
      && (after != ThenCheck ==> mood == Thinking)
    case Check => pc.Body? && (mood == Eating || (mood == Hungry && HasEatingNeighbour(s, i)))
    case Waiting =>
      && (pc.Body? || M.InWait(pc, i)) && mood != Thinking
      && (pc.Body? || pc.WaitDone? ==> mood == Eating)
    case Leaving(took) =>
      if took then pc.Body? && mood == Eating else BodyOrSignal(pc) && mood == Thinking
  }

  /** Philosopher j is going to test h before it releases the monitor. */
  predicate WillTest(s: State, j: nat, h: nat)
    requires Shape(s) && j < |s.mood|
  {
    match s.code[j]
    case Test(k, after) => k == h || (after == ThenRight && h == Right(j, |s.mood|))
    case Set(k, after) => k == h || (after == ThenRight && h == Right(j, |s.mood|))
    case Sig(k, after) => after == ThenRight && h == Right(j, |s.mood|)
    case _ => false
  }

  /** Nobody starves unnoticed: a hungry philosopher between two that do not eat is about to be tested. */
  ghost predicate Noticed(s: State, h: nat)
    requires Shape(s) && h < |s.mood|
  {
    MayEat(s, h) ==> exists j: nat :: j < |s.mood| && WillTest(s, j, h)
  }

  /** A token on its way to condition c belongs to a philosopher who has been made to eat. */
  ghost predicate SignalsMeanEating(s: State, c: nat)
    requires Shape(s) && c < |s.mood|
  {
    && (s.m.cv[c].sem.value > 0 ==> s.mood[c] == Eating)
    && (forall j: nat | j < |s.mood| :: s.m.pc[j] == M.SigUp(c) ==> s.mood[c] == Eating)
  }

  /** A philosopher made to eat while it waits has its wake-up on the way. */
  ghost predicate WakeupSent(s: State, i: nat)
    requires Shape(s) && i < |s.mood|
  {
    s.code[i].Waiting? && s.mood[i] == Eating && (s.m.pc[i].WaitUp? || s.m.pc[i].WaitDown? || s.m.pc[i].WaitSleep?) ==>
      s.m.cv[i].sem.value > 0 || exists j: nat :: j < |s.mood| && Sending(s, j, i)
  }

  predicate Sending(s: State, j: nat, i: nat)
    requires Shape(s) && j < |s.mood|
  {
    s.m.pc[j] == M.SigUp(i) || (s.m.pc[j].Body? && s.code[j].Sig? && s.code[j].k == i)
  }

  ghost predicate NoNeighboursEat(s: State)
    requires Shape(s)
  {
    forall i: nat | i < |s.mood| :: s.mood[i] == Eating ==> s.mood[Right(i, |s.mood|)] != Eating
  }

  ghost predicate Inv(s: State) {
    && Shape(s)
    && M.Inv(s.m)
    && NoNeighboursEat(s)
    && (forall i: nat | i < |s.mood| :: PhilOk(s, i) && SignalsMeanEating(s, i) && Noticed(s, i) && WakeupSent(s, i))
  }

  lemma InitInv(n: nat)
    requires n >= 2
    ensures Inv(Init(n))
  {
    M.InitInv(n, n);
  }

  // --- preservation ---

  lemma RingFacts(i: nat, n: nat)
    requires i < n && n >= 2
    ensures Left(i, n) < n && Right(i, n) < n && Left(i, n) != i && Right(i, n) != i
    ensures Left(Right(i, n), n) == i && Right(Left(i, n), n) == i
  {}

  /** Everyone but the active philosopher is asleep, outside, or between semaphore operations. */
  lemma OthersInactive(s: State, i: nat, j: nat)
    requires Shape(s) && M.Inv(s.m) && i < |s.mood| && j < |s.mood| && M.Active(s.m.pc[i])
    ensures j != i ==> !M.Active(s.m.pc[j])
  {
    M.OneToken(s.m);
  }

  /** Only philosopher c ever waits on condition c, so a philosopher in the body has no one waiting on its own. */
  lemma OwnConditionEmpty(s: State, i: nat)
    requires Inv(s) && i < |s.mood| && s.m.pc[i].Body?
    ensures s.m.cv[i].count == 0
  {
    hide M.Inv;
    M.NoLostSignal(s.m);
    forall w: nat | w < |s.mood| ensures !M.InWait(s.m.pc[w], i) {
      assert PhilOk(s, w);
    }
    assert M.Waiters(s.m.pc, i) == {};
  }

  /** A step that changes no mood and moves philosopher i's code from one position to another that tests as much. */
  lemma QuietNoticed(s: State, r: State, i: nat, h: nat)
    requires Shape(s) && Shape(r) && i < |s.mood| && h < |s.mood| && r.mood == s.mood
    requires r.code == s.code[i := r.code[i]]
    requires MayEat(s, h) && WillTest(s, i, h) ==> WillTest(r, i, h)
    requires Noticed(s, h)
    ensures Noticed(r, h)
  {
    if MayEat(r, h) {
      var j: nat :| j < |s.mood| && WillTest(s, j, h);
      assert WillTest(r, j, h);
    }
  }

  /** Steps inside monitor operations, by philosopher i: its own position advances and somebody may be woken. */
  lemma GoPhil(s: State, i: nat, j: nat)
    requires Inv(s) && Enabled(s, i) && !s.m.pc[i].Out? && !s.m.pc[i].Body? && j < |s.mood|
    requires Shape(Step(s, i))
    ensures PhilOk(Step(s, i), j) && SignalsMeanEating(Step(s, i), j) && Noticed(Step(s, i), j)
  {
    hide M.Inv, M.Step, PhilOk, SignalsMeanEating, MayEat;
    assert Noticed(s, j);
    QuietNoticed(s, Step(s, i), i, j);
    GoSignals(s, i, j);
    if i == j {
      GoMine(s, i);
    } else {
      GoOther(s, i, j);
    }
  }

  lemma GoSignals(s: State, i: nat, c: nat)
    requires Inv(s) && Enabled(s, i) && !s.m.pc[i].Out? && !s.m.pc[i].Body? && c < |s.mood|
    requires Shape(Step(s, i))
    ensures SignalsMeanEating(Step(s, i), c)
  {
    hide M.Inv, M.Step, PhilOk, Noticed;
    M.StepEffect(s.m, i, M.Go);
    assert SignalsMeanEating(s, c);
  }

  lemma GoMine(s: State, i: nat)
    requires Inv(s) && Enabled(s, i) && !s.m.pc[i].Out? && !s.m.pc[i].Body?
    requires Shape(Step(s, i))
    ensures PhilOk(Step(s, i), i)
  {
    hide M.Inv, M.Step, Noticed, MayEat;
    M.StepEffect(s.m, i, M.Go);
    assert PhilOk(s, i) && SignalsMeanEating(s, i);
  }

  /** A philosopher woken from cond_wait was signalled by one that had made it eat. */
  lemma GoOther(s: State, i: nat, j: nat)
    requires Inv(s) && Enabled(s, i) && !s.m.pc[i].Out? && !s.m.pc[i].Body? && j < |s.mood| && i != j
    requires Shape(Step(s, i))
    ensures PhilOk(Step(s, i), j)
  {
    hide M.Inv, M.Step, Noticed;
    M.StepEffect(s.m, i, M.Go);
    assert PhilOk(s, j) && SignalsMeanEating(s, j);
    assert M.LeftOrWoken(s.m, i, s.m.pc[j], Step(s, i).m.pc[j]);
  }

  lemma OutsidePhil(s: State, i: nat, j: nat)
    requires Inv(s) && Enabled(s, i) && s.m.pc[i].Out? && j < |s.mood|
    requires Shape(Step(s, i))
    ensures PhilOk(Step(s, i), j) && SignalsMeanEating(Step(s, i), j) && Noticed(Step(s, i), j)
  {
    hide M.Inv, M.Step;
    var r := Step(s, i);
    M.StepEffect(s.m, i, M.Enter);
    assert PhilOk(s, i) && PhilOk(s, j) && SignalsMeanEating(s, j) && Noticed(s, j);
    QuietNoticed(s, r, i, j);
  }

  /** cond_signal, cond_wait and the release at the end of a routine, for the philosopher that calls them */
  lemma CallMine(s: State, i: nat)
    requires Inv(s) && Enabled(s, i) && s.m.pc[i].Body?
    requires s.code[i].Sig? || s.code[i].Check? || s.code[i].Leaving? || s.code[i].Waiting?
    requires Shape(Step(s, i))
    ensures PhilOk(Step(s, i), i)
  {
    hide M.Inv, M.Step, Noticed, SignalsMeanEating, WakeupSent, NoNeighboursEat;
    M.StepEffect(s.m, i, MonitorMove(s, i));
    assert PhilOk(s, i);
    OwnConditionEmpty(s, i);
    RingFacts(i, |s.mood|);
  }

  /** ... and for the others */
  lemma CallOther(s: State, i: nat, j: nat)
    requires Inv(s) && Enabled(s, i) && s.m.pc[i].Body? && j < |s.mood| && j != i
    requires s.code[i].Sig? || s.code[i].Check? || s.code[i].Leaving? || s.code[i].Waiting?
    requires Shape(Step(s, i))
    ensures PhilOk(Step(s, i), j)
  {
    hide M.Inv, M.Step, Noticed, SignalsMeanEating, WakeupSent, NoNeighboursEat;
    M.StepEffect(s.m, i, MonitorMove(s, i));
    assert PhilOk(s, j);
    OthersInactive(s, i, j);
  }

  lemma CallRest(s: State, i: nat, j: nat)
    requires Inv(s) && Enabled(s, i) && s.m.pc[i].Body? && j < |s.mood|
    requires s.code[i].Sig? || s.code[i].Check? || s.code[i].Leaving? || s.code[i].Waiting?
    requires Shape(Step(s, i))
    ensures SignalsMeanEating(Step(s, i), j) && Noticed(Step(s, i), j)
  {
    hide M.Inv, M.Step, WakeupSent, NoNeighboursEat, MayEat;
    M.StepEffect(s.m, i, MonitorMove(s, i));
    assert PhilOk(s, i) && SignalsMeanEating(s, j) && Noticed(s, j);
    QuietNoticed(s, Step(s, i), i, j);
  }

  /** phi_test_condvar's condition */
  lemma TestMine(s: State, i: nat)
    requires Inv(s) && Enabled(s, i) && s.m.pc[i].Body? && s.code[i].Test?
    ensures PhilOk(Step(s, i), i)
  {
    hide M.Inv, M.Step, Noticed, SignalsMeanEating, WakeupSent, NoNeighboursEat;
    assert PhilOk(s, i);
    RingFacts(i, |s.mood|);
  }

  lemma TestRest(s: State, i: nat, j: nat)
    requires Inv(s) && Enabled(s, i) && s.m.pc[i].Body? && j < |s.mood| && s.code[i].Test?
    ensures SignalsMeanEating(Step(s, i), j) && Noticed(Step(s, i), j) && (j != i ==> PhilOk(Step(s, i), j))
  {
    hide M.Inv, M.Step, WakeupSent, NoNeighboursEat;
    assert PhilOk(s, j) && SignalsMeanEating(s, j) && Noticed(s, j);
    OthersInactive(s, i, j);
    TestNoticed(s, i, j);
  }

  lemma TestNoticed(s: State, i: nat, j: nat)
    requires Inv(s) && Enabled(s, i) && s.m.pc[i].Body? && j < |s.mood| && s.code[i].Test?
    ensures Noticed(Step(s, i), j)
  {
    hide M.Inv, M.Step, WakeupSent, NoNeighboursEat, SignalsMeanEating;
    assert PhilOk(s, i) && Noticed(s, j);
    RingFacts(i, |s.mood|);
    QuietNoticed(s, Step(s, i), i, j);
  }

  /** The three writes to the state array */
  lemma WritePhil(s: State, i: nat, j: nat)
    requires Inv(s) && Enabled(s, i) && s.m.pc[i].Body? && j < |s.mood|
    requires s.code[i].TakeIn? || s.code[i].PutIn? || s.code[i].Set?
    ensures PhilOk(Step(s, i), j) && SignalsMeanEating(Step(s, i), j)
  {
    hide M.Inv, M.Step;
    assert PhilOk(s, i) && PhilOk(s, j) && SignalsMeanEating(s, j);
    OthersInactive(s, i, j);
    RingFacts(i, |s.mood|);
    WriterNotSignalled(s, i);
  }

  /** A philosopher in the body has no signal in flight to its own condition. */
  lemma WriterNotSignalled(s: State, i: nat)
    requires Inv(s) && i < |s.mood| && s.m.pc[i].Body?
    ensures s.m.cv[i].sem.value == 0
    ensures forall j: nat | j < |s.mood| :: !s.m.pc[j].SigUp?
  {
    hide M.Inv;
    M.NoLostSignal(s.m);
    forall j: nat | j < |s.mood| ensures !s.m.pc[j].SigUp? {
      OthersInactive(s, i, j);
    }
    forall w: nat | w < |s.m.pc| ensures s.m.pc[w] != M.WaitDown(i) {
      assert PhilOk(s, w);
    }
  }

  lemma WriteNoticed(s: State, i: nat, h: nat)
    requires Inv(s) && Enabled(s, i) && s.m.pc[i].Body? && h < |s.mood|
    requires s.code[i].TakeIn? || s.code[i].PutIn? || s.code[i].Set?
    ensures Noticed(Step(s, i), h)
  {
    hide M.Inv, M.Step, SignalsMeanEating, WakeupSent, NoNeighboursEat;
    var r, n := Step(s, i), |s.mood|;
    assert PhilOk(s, i) && Noticed(s, h);
    RingFacts(i, n);
    RingFacts(h, n);
    if MayEat(r, h) {
      if MayEat(s, h) {
        var j: nat :| j < n && WillTest(s, j, h);
        assert WillTest(r, j, h);
      } else {
        assert WillTest(r, i, h);
      }
    }
  }

  lemma WriteNoNeighbours(s: State, i: nat)
    requires Inv(s) && Enabled(s, i) && s.m.pc[i].Body?
    requires s.code[i].TakeIn? || s.code[i].PutIn? || s.code[i].Set?
    ensures NoNeighboursEat(Step(s, i))
  {
    hide M.Inv, M.Step;
    assert PhilOk(s, i);
    forall j: nat | j < |s.mood| ensures Left(Right(j, |s.mood|), |s.mood|) == j {
      RingFacts(j, |s.mood|);
    }
  }

  /** A wake-up under way stays under way until it arrives. */
  lemma StepWakeup(s: State, i: nat, k: nat)
    requires Inv(s) && Enabled(s, i) && k < |s.mood|
    requires Shape(Step(s, i)) && |Step(s, i).mood| == |s.mood|
    ensures WakeupSent(Step(s, i), k)
  {
    hide M.Inv, M.Step, Noticed, SignalsMeanEating, NoNeighboursEat, PhilOk, Step, Sending, M.LeftOrWoken, M.Follows;
    var r := Step(s, i);
    var waits := s.code[k].Waiting? && (s.m.pc[k].WaitUp? || s.m.pc[k].WaitDown? || s.m.pc[k].WaitSleep?);
    assert WakeupSent(s, k) && PhilOk(s, k);
    if !waits {
      NewWaiter(s, i, k);
    } else if s.mood[k] != Eating {
      MadeToEat(s, i, k);
    } else if s.m.cv[k].sem.value > 0 {
      UnitStays(s, i, k);
    } else {
      var j: nat :| j < |s.mood| && Sending(s, j, k);
      WaiterIsOwn(s, k);
      if j == i {
        SenderMoves(s, i, k);
      } else {
        SendingPersists(s, i, j, k);
      }
    }
  }

  /** Whoever starts to wait is hungry. */
  lemma NewWaiter(s: State, i: nat, k: nat)
    requires Inv(s) && Enabled(s, i) && k < |s.mood|
    requires Shape(Step(s, i)) && |Step(s, i).mood| == |s.mood|
    requires !(s.code[k].Waiting? && (s.m.pc[k].WaitUp? || s.m.pc[k].WaitDown? || s.m.pc[k].WaitSleep?))
    ensures WakeupSent(Step(s, i), k)
  {
    hide M.Inv, M.Step, Noticed, SignalsMeanEating, NoNeighboursEat;
    M.StepEffect(s.m, i, MonitorMove(s, i));
    assert PhilOk(s, k);
  }

  /** Whoever makes a waiting philosopher eat goes on to signal it. */
  lemma MadeToEat(s: State, i: nat, k: nat)
    requires Inv(s) && Enabled(s, i) && k < |s.mood| && s.code[k].Waiting? && s.mood[k] != Eating
    requires Shape(Step(s, i)) && |Step(s, i).mood| == |s.mood|
    ensures WakeupSent(Step(s, i), k)
  {
    hide M.Inv, M.Step, Noticed, SignalsMeanEating, NoNeighboursEat;
    if Step(s, i).mood[k] == Eating {
      assert Sending(Step(s, i), i, k);
    }
  }

  lemma UnitStays(s: State, i: nat, k: nat)
    requires Inv(s) && Enabled(s, i) && k < |s.mood| && s.m.cv[k].sem.value > 0
    requires Shape(Step(s, i)) && |Step(s, i).mood| == |s.mood|
    ensures WakeupSent(Step(s, i), k)
  {
    hide M.Inv, M.Step, Noticed, SignalsMeanEating, NoNeighboursEat;
    M.StepEffect(s.m, i, MonitorMove(s, i));
    assert PhilOk(s, i);
    DownTakesUnit(s.m, i);
  }

  /** A philosopher about to sleep on a condition that holds a unit takes the unit instead. */
  lemma DownTakesUnit(m: M.State, i: nat)
    ensures M.Enabled(m, i, M.Go) && m.pc[i].WaitDown? && m.cv[m.pc[i].c].sem.value > 0 ==>
      M.Step(m, i, M.Go).pc[i].WaitDone?
  {}

  lemma WaiterIsOwn(s: State, k: nat)
    requires Inv(s) && k < |s.mood| && s.code[k].Waiting?
    requires s.m.pc[k].WaitUp? || s.m.pc[k].WaitDown? || s.m.pc[k].WaitSleep?
    ensures M.InWait(s.m.pc[k], k)
  {
    assert PhilOk(s, k);
  }

  lemma SendingPersists(s: State, i: nat, j: nat, k: nat)
    requires Inv(s) && Enabled(s, i) && j < |s.mood| && k < |s.mood| && j != i && Sending(s, j, k)
    requires Shape(Step(s, i)) && |Step(s, i).mood| == |s.mood|
    ensures Sending(Step(s, i), j, k)
  {
    hide M.Inv, M.Step, Noticed, SignalsMeanEating, NoNeighboursEat, PhilOk, WakeupSent;
    M.StepEffect(s.m, i, MonitorMove(s, i));
    assert M.LeftOrWoken(s.m, i, s.m.pc[j], Step(s, i).m.pc[j]);
  }

  lemma SenderMoves(s: State, i: nat, k: nat)
    requires Inv(s) && Enabled(s, i) && k < |s.mood| && Sending(s, i, k)
    requires Shape(Step(s, i)) && |Step(s, i).mood| == |s.mood|
    requires s.code[k].Waiting? && M.InWait(s.m.pc[k], k)
    ensures WakeupSent(Step(s, i), k)
  {
    hide M.Inv, M.Step, Noticed, SignalsMeanEating, NoNeighboursEat;
    var r := Step(s, i);
    M.StepEffect(s.m, i, MonitorMove(s, i));
    if s.m.pc[i].SigUp? {
      if q: nat :| q < |s.m.pc| && q != i && M.Roused(s.m.pc[q], r.m.pc[q], k) {
        assert PhilOk(s, q);
      }
    } else {
      M.NoLostSignal(s.m);
      assert k in M.Waiters(s.m.pc, k);
      assert s.m.cv[k].count > 0;
      assert Sending(r, i, k);
    }
  }

  /** Every step of every philosopher keeps the invariant. */
  lemma StepInv(s: State, i: nat)
    requires Inv(s) && Enabled(s, i)
    ensures Inv(Step(s, i))
  {
    hide M.Inv, M.Step, PhilOk, SignalsMeanEating, Noticed, WakeupSent;
    var r := Step(s, i);
    StepKeepsMonitor(s, i);
    M.StepEffect(s.m, i, MonitorMove(s, i));
    forall j: nat | j < |s.mood| ensures PhilOk(r, j) && SignalsMeanEating(r, j) && Noticed(r, j) && WakeupSent(r, j) {
      StepWakeup(s, i, j);
      if s.m.pc[i].Out? {
        OutsidePhil(s, i, j);
      } else if !s.m.pc[i].Body? {
        GoPhil(s, i, j);
      } else if s.code[i].Test? {
        TestMine(s, i);
        TestRest(s, i, j);
      } else if s.code[i].TakeIn? || s.code[i].PutIn? || s.code[i].Set? {
        WritePhil(s, i, j);
        WriteNoticed(s, i, j);
      } else {
        CallRest(s, i, j);
        if j == i {
          CallMine(s, i);
        } else {
          CallOther(s, i, j);
        }
      }
    }
    if s.m.pc[i].Body? && (s.code[i].TakeIn? || s.code[i].PutIn? || s.code[i].Set?) {
      WriteNoNeighbours(s, i);
    }
  }

  // --- what holds in every run ---

  ghost predicate IsRun(s: State, who: seq<nat>, r: State)
    decreases |who|
  {
    if who == [] then r == s else Enabled(s, who[0]) && IsRun(Step(s, who[0]), who[1..], r)
  }

  lemma {:induction false} RunInv(s: State, who: seq<nat>, r: State)
    requires Inv(s) && IsRun(s, who, r)
    ensures Inv(r)
    decreases |who|
  {
    hide Inv, Step, Enabled;
    if who != [] {
      StepInv(s, who[0]);
      RunInv(Step(s, who[0]), who[1..], r);
    }
  }

  /** While the monitor is free every hungry philosopher has an eating neighbour. */
  lemma FreeMonitorFair(s: State)
    requires Inv(s) && s.m.mutex.value > 0
    ensures forall h: nat | h < |s.mood| && s.mood[h] == Hungry :: HasEatingNeighbour(s, h)
  {
    hide M.Inv, SignalsMeanEating, WakeupSent, NoNeighboursEat;
    forall h: nat | h < |s.mood| && s.mood[h] == Hungry ensures HasEatingNeighbour(s, h) {
      assert Noticed(s, h);
      if MayEat(s, h) {
        var j: nat :| j < |s.mood| && WillTest(s, j, h);
        assert PhilOk(s, j);
        FreeMonitorQuiet(s, j);
      }
    }
  }

  lemma FreeMonitorQuiet(s: State, j: nat)
    requires Shape(s) && M.Inv(s.m) && s.m.mutex.value > 0 && j < |s.mood|
    ensures !M.Active(s.m.pc[j]) && !M.InSignal(s.m.pc[j]) && !s.m.pc[j].Entering?
  {
    hide M.CvOk, M.PcOk;
    var t: M.Token :| t != M.Nowhere && M.InvAt(s.m, t);
    assert t == M.AtMutex;
    assert j in M.Signallers(s.m.pc) <==> M.InSignal(s.m.pc[j]);
    assert |M.Signallers(s.m.pc)| == 0;
  }

  /**
    For every ring of two or more philosophers and every interleaving: neighbours never eat together, take_forks is left
    only by a philosopher that eats, whenever the monitor is free every hungry philosopher has an eating neighbour, and
    as long as somebody is in a round, somebody in a round can move.
    */
  lemma EveryRun(n: nat, who: seq<nat>, r: State)
    requires n >= 2 && IsRun(Init(n), who, r)
    ensures Shape(r) && |r.mood| == n
    ensures forall i: nat | i < n && r.mood[i] == Eating ::
              r.mood[Left(i, n)] != Eating && r.mood[Right(i, n)] != Eating
    ensures forall i: nat | i < n && r.code[i] == Leaving(true) :: r.mood[i] == Eating
    ensures r.m.mutex.value > 0 ==> forall h: nat | h < n && r.mood[h] == Hungry :: HasEatingNeighbour(r, h)
    ensures SomeoneBusy(r) ==> BusyOneMoves(r)
  {
    hide M.Inv, SignalsMeanEating, Noticed, WakeupSent, Step, Enabled;
    InitInv(n);
    RunInv(Init(n), who, r);
    RunKeepsSize(Init(n), who, r);
    if SomeoneBusy(r) {
      NoDeadlock(r);
    }
    forall i: nat | i < n && r.mood[i] == Eating ensures r.mood[Left(i, n)] != Eating && r.mood[Right(i, n)] != Eating {
      RingFacts(i, n);
    }
    forall i: nat | i < n && r.code[i] == Leaving(true) ensures r.mood[i] == Eating {
      assert PhilOk(r, i);
    }
    if r.m.mutex.value > 0 {
      FreeMonitorFair(r);
    }
  }

  lemma {:induction false} RunKeepsSize(s: State, who: seq<nat>, r: State)
    requires IsRun(s, who, r)
    ensures |r.mood| == |s.mood|
    decreases |who|
  {
    if who != [] {
      RunKeepsSize(Step(s, who[0]), who[1..], r);
    }
  }

  /** Between two rounds, where a philosopher may also stop for good. */
  predicate BetweenRounds(s: State, i: nat)
    requires Shape(s) && i < |s.mood|
  {
    s.m.pc[i].Out? && s.mood[i] == Thinking
  }

  ghost predicate SomeoneBusy(s: State)
    requires Shape(s)
  {
    exists i: nat :: i < |s.mood| && !BetweenRounds(s, i)
  }

  ghost predicate BusyOneMoves(s: State)
    requires Shape(s)
  {
    exists i: nat :: i < |s.mood| && !BetweenRounds(s, i) && Enabled(s, i)
  }

  /**
    No deadlock, even if everyone between two rounds has stopped: as long as somebody is in a round, somebody in a round
    can move.
    */
  lemma NoDeadlock(s: State)
    requires Inv(s) && SomeoneBusy(s)
    ensures BusyOneMoves(s)
  {
    hide SignalsMeanEating, Noticed, WakeupSent, NoNeighboursEat, M.Inv, PhilOk, Enabled;
    M.TokenNeverStranded(s.m);
    if s.m.mutex.value > 0 {
      FreeMonitorMoves(s);
    } else if p: Proc, a: M.Choice :| M.Enabled(s.m, p, a) && M.Active(s.m.pc[p]) {
      EnabledHere(s, p, a);
      assert !BetweenRounds(s, p);
    } else {
      var p: Proc, a: M.Choice :| M.Enabled(s.m, p, a) && M.Active(M.Step(s.m, p, a).pc[p]) && !M.Active(s.m.pc[p]);
      EnabledHere(s, p, a);
      // from outside it would have needed the mutex
      assert !BetweenRounds(s, p);
    }
  }

  lemma EnabledHere(s: State, p: nat, a: M.Choice)
    requires Inv(s) && M.Enabled(s.m, p, a)
    ensures Enabled(s, p)
  {
    hide SignalsMeanEating, Noticed, WakeupSent, NoNeighboursEat, M.Inv;
    assert PhilOk(s, p);
    RingFacts(p, |s.mood|);
  }

  /** With the monitor free, whoever is in a round can move, or sleeps hungry beside one that eats and can move. */
  lemma FreeMonitorMoves(s: State)
    requires Inv(s) && s.m.mutex.value > 0 && SomeoneBusy(s)
    ensures BusyOneMoves(s)
  {
    hide SignalsMeanEating, Noticed, NoNeighboursEat, M.Inv, PhilOk, WakeupSent, Enabled;
    var i: nat :| i < |s.mood| && !BetweenRounds(s, i);
    if s.m.pc[i].WaitSleep? {
      AsleepIsHungry(s, i);
      FreeMonitorFair(s);
      RingFacts(i, |s.mood|);
      var e := if s.mood[Left(i, |s.mood|)] == Eating then Left(i, |s.mood|) else Right(i, |s.mood|);
      if s.m.pc[e].WaitSleep? {
        AsleepIsHungry(s, e);
      }
      AwakeMoves(s, e);
    } else {
      AwakeMoves(s, i);
    }
  }

  lemma AwakeMoves(s: State, i: nat)
    requires Inv(s) && s.m.mutex.value > 0 && i < |s.mood| && !s.m.pc[i].WaitSleep?
    ensures Enabled(s, i)
  {
    hide SignalsMeanEating, Noticed, NoNeighboursEat, M.Inv, WakeupSent;
    FreeMonitorQuiet(s, i);
    assert PhilOk(s, i);
    EnabledHere(s, i, if s.m.pc[i].Out? then M.Enter else M.Go);
  }

  lemma AsleepIsHungry(s: State, j: nat)
    requires Inv(s) && s.m.mutex.value > 0 && j < |s.mood| && s.m.pc[j].WaitSleep?
    ensures s.mood[j] == Hungry
  {
    hide SignalsMeanEating, Noticed, NoNeighboursEat, M.Inv;
    assert PhilOk(s, j) && WakeupSent(s, j);
    forall k: nat | k < |s.mood| ensures !Sending(s, k, j) {
      FreeMonitorQuiet(s, k);
    }
    M.OneToken(s.m);
    CvUnitsBound(s.m.cv, j);
  }

  lemma {:induction false} CvUnitsBound(cv: seq<M.Cond>, c: nat)
    requires c < |cv|
    ensures cv[c].sem.value <= M.CvUnits(cv)
  {
    if c > 0 {
      CvUnitsBound(cv[1..], c - 1);
    }
  }

  // --- whole rounds, seen from outside ---

  /** The states a run goes through */
  ghost predicate IsTrace(n: nat, who: seq<nat>, tr: seq<State>)
    requires n >= 2
  {
    && |tr| == |who| + 1 && tr[0] == Init(n)
    && forall k | 0 <= k < |who| :: Enabled(tr[k], who[k]) && tr[k + 1] == Step(tr[k], who[k])
  }

  lemma {:induction false} TraceInv(n: nat, who: seq<nat>, tr: seq<State>, k: nat)
    requires n >= 2 && IsTrace(n, who, tr) && k < |tr|
    ensures Inv(tr[k]) && |tr[k].mood| == n
    decreases k
  {
    hide Inv, Step, Enabled;
    if k == 0 {
      InitInv(n);
    } else {
      TraceInv(n, who, tr, k - 1);
      assert Enabled(tr[k - 1], who[k - 1]);
      StepInv(tr[k - 1], who[k - 1]);
      SameSize(tr[k - 1], who[k - 1]);
    }
  }

  lemma SameSize(s: State, i: nat)
    requires Enabled(s, i)
    ensures |Step(s, i).mood| == |s.mood|
  {
    hide M.Step;
  }

  predicate Outside(s: State, i: nat) { i < |s.m.pc| && s.m.pc[i].Out? }

  /** Philosopher i goes into the monitor at step a and is next outside in state b. */
  ghost predicate Round(who: seq<nat>, tr: seq<State>, i: nat, a: nat, b: nat) {
    && |tr| == |who| + 1 && a < b < |tr| && who[a] == i && Outside(tr[a], i) && Outside(tr[b], i)
    && forall c | a < c < b :: !Outside(tr[c], i)
  }

  /** On the way through phi_take_forks_condvar */
  predicate Taking(c: Code) {
    match c
    case TakeIn => true
    case Test(_, after) => after == ThenCheck
    case Set(_, after) => after == ThenCheck
    case Sig(_, after) => after == ThenCheck
    case Check => true
    case Waiting => true
    case Leaving(took) => took
    case _ => false
  }

  /** On the way through phi_put_forks_condvar */
  predicate Putting(c: Code) { !Taking(c) && !c.Idle? }

  /** Who has gone in stays on its way until it is outside, hungry before anything else, and comes out eating. */
  lemma TakingStep(s: State, j: nat, i: nat)
    requires Inv(s) && Enabled(s, j) && i < |s.mood| && Taking(s.code[i]) && !Outside(s, i)
    ensures var r := Step(s, j);
      && |r.code| == |s.code| && |r.mood| == |s.mood|
      && (Outside(r, i) ==> s.code[i] != TakeIn && r.mood[i] == Eating)
      && (!Outside(r, i) ==> Taking(r.code[i]) && (s.code[i] == TakeIn ==> r.code[i] == TakeIn || r.mood[i] == Hungry))
  {
    hide M.Inv, M.Step, Noticed, SignalsMeanEating, NoNeighboursEat, WakeupSent;
    assert PhilOk(s, i);
    M.StepEffect(s.m, j, MonitorMove(s, j));
    if j != i {
      assert M.LeftOrWoken(s.m, j, s.m.pc[i], M.Step(s.m, j, MonitorMove(s, j)).pc[i]);
    }
  }

  /** The same on the way out of the forks: thinking before anything else, and still when outside. */
  lemma PuttingStep(s: State, j: nat, i: nat)
    requires Inv(s) && Enabled(s, j) && i < |s.mood| && Putting(s.code[i]) && !Outside(s, i)
    ensures var r := Step(s, j);
      && |r.code| == |s.code| && |r.mood| == |s.mood|
      && (Outside(r, i) ==> s.code[i] != PutIn && r.mood[i] == Thinking)
      && (!Outside(r, i) ==> Putting(r.code[i]))
      && (s.code[i] == PutIn ==>
            s.mood[i] == Eating && (r.code[i] == PutIn || (j == i && r.mood[i] == Thinking)))
  {
    hide M.Inv, M.Step, Noticed, SignalsMeanEating, NoNeighboursEat, WakeupSent;
    assert PhilOk(s, i) && PhilOk(s, j);
    M.StepEffect(s.m, j, MonitorMove(s, j));
    if j != i {
      assert M.LeftOrWoken(s.m, j, s.m.pc[i], M.Step(s.m, j, MonitorMove(s, j)).pc[i]);
    }
  }

  lemma EntryStep(s: State, i: nat)
    requires Inv(s) && Enabled(s, i) && Outside(s, i)
    ensures var r := Step(s, i);
      && !Outside(r, i) && |r.code| == |s.code| && s.mood[i] != Hungry
      && r.code[i] == (if s.mood[i] == Eating then PutIn else TakeIn)
  {
    hide M.Inv, M.Step, Noticed, SignalsMeanEating, NoNeighboursEat, WakeupSent;
    assert PhilOk(s, i);
    M.StepEffect(s.m, i, MonitorMove(s, i));
  }

  ghost predicate WasHungry(tr: seq<State>, i: nat, a: nat, b: nat) {
    exists c: nat | a < c < b && c < |tr| :: i < |tr[c].mood| && tr[c].mood[i] == Hungry
  }

  lemma {:induction false} TakingUntil(n: nat, who: seq<nat>, tr: seq<State>, i: nat, a: nat, b: nat, c: nat)
    requires n >= 2 && i < n && IsTrace(n, who, tr) && Round(who, tr, i, a, b) && tr[a].mood[i] == Thinking && a < c < b
    ensures |tr[c].code| == n && Taking(tr[c].code[i]) && (tr[c].code[i] == TakeIn || WasHungry(tr, i, a, c + 1))
    decreases c
  {
    hide Inv, Step, Enabled, Taking;
    TraceInv(n, who, tr, c - 1);
    TraceInv(n, who, tr, c);
    InvShape(tr[c]);
    assert Enabled(tr[c - 1], who[c - 1]);
    if c == a + 1 {
      EntryStep(tr[a], i);
      assert Taking(TakeIn) by { TakeInTakes(); }
    } else {
      TakingUntil(n, who, tr, i, a, b, c - 1);
      TakingStep(tr[c - 1], who[c - 1], i);
      if tr[c].mood[i] == Hungry {
        assert WasHungry(tr, i, a, c + 1);
      } else if WasHungry(tr, i, a, c) {
        var h: nat :| a < h < c && i < |tr[h].mood| && tr[h].mood[i] == Hungry;
        assert a < h < c + 1;
      }
    }
  }

  lemma TakeInTakes()
    ensures Taking(TakeIn)
  {}

  lemma InvShape(s: State)
    requires Inv(s)
    ensures Shape(s)
  {}

  /**
    phi_take_forks_condvar: in every run, a philosopher that goes into the monitor thinking is hungry on the way and
    eats when it is next outside.
    */
  lemma TakeForks(n: nat, who: seq<nat>, tr: seq<State>, i: nat, a: nat, b: nat)
    requires n >= 2 && i < n && IsTrace(n, who, tr) && Round(who, tr, i, a, b)
    requires i < |tr[a].mood| && tr[a].mood[i] == Thinking
    ensures i < |tr[b].mood| && tr[b].mood[i] == Eating && WasHungry(tr, i, a, b)
  {
    hide Inv, Step, Enabled, Taking;
    TraceInv(n, who, tr, a);
    TraceInv(n, who, tr, b - 1);
    assert Enabled(tr[a], who[a]) && Enabled(tr[b - 1], who[b - 1]);
    EntryStep(tr[a], i);
    TakingUntil(n, who, tr, i, a, b, b - 1);
    TakingStep(tr[b - 1], who[b - 1], i);
  }

  /** Philosopher i itself stops eating, at some step from a up to b. */
  ghost predicate StopsEating(who: seq<nat>, tr: seq<State>, i: nat, a: nat, b: nat) {
    exists c: nat | a <= c < b && c < |who| && c + 1 < |tr| ::
      && i < |tr[c].mood| && i < |tr[c + 1].mood| && who[c] == i && tr[c].mood[i] == Eating
      && tr[c + 1].mood[i] == Thinking
  }

  lemma {:induction false} PuttingUntil(n: nat, who: seq<nat>, tr: seq<State>, i: nat, a: nat, b: nat, c: nat)
    requires n >= 2 && i < n && IsTrace(n, who, tr) && Round(who, tr, i, a, b) && tr[a].mood[i] == Eating && a < c < b
    ensures |tr[c].code| == n && Putting(tr[c].code[i]) && (tr[c].code[i] == PutIn || StopsEating(who, tr, i, a, c))
    decreases c
  {
    hide Inv, Step, Enabled, Putting;
    TraceInv(n, who, tr, c - 1);
    TraceInv(n, who, tr, c);
    InvShape(tr[c]);
    assert Enabled(tr[c - 1], who[c - 1]);
    if c == a + 1 {
      EntryStep(tr[a], i);
      assert Putting(PutIn) by { PutInPuts(); }
    } else {
      PuttingUntil(n, who, tr, i, a, b, c - 1);
      PuttingStep(tr[c - 1], who[c - 1], i);
      if tr[c - 1].code[i] == PutIn {
        if tr[c].code[i] != PutIn {
          assert who[c - 1] == i && tr[c - 1].mood[i] == Eating && tr[(c - 1) + 1].mood[i] == Thinking;
          assert StopsEating(who, tr, i, a, c);
        }
      } else {
        StoppedBefore(who, tr, i, a, c - 1);
      }
    }
  }

  lemma PutInPuts()
    ensures Putting(PutIn)
  {}

  lemma StoppedBefore(who: seq<nat>, tr: seq<State>, i: nat, a: nat, b: nat)
    requires StopsEating(who, tr, i, a, b)
    ensures StopsEating(who, tr, i, a, b + 1)
  {
    var c: nat :| && a <= c < b && c < |who| && c + 1 < |tr| && i < |tr[c].mood| && i < |tr[c + 1].mood|
                  && who[c] == i && tr[c].mood[i] == Eating && tr[c + 1].mood[i] == Thinking;
    assert a <= c < b + 1;
  }

  /**
    phi_put_forks_condvar: in every run, a philosopher that goes into the monitor eating stops eating by a step of its
    own and thinks when it is next outside.
    */
  lemma PutForks(n: nat, who: seq<nat>, tr: seq<State>, i: nat, a: nat, b: nat)
    requires n >= 2 && i < n && IsTrace(n, who, tr) && Round(who, tr, i, a, b)
    requires i < |tr[a].mood| && tr[a].mood[i] == Eating
    ensures i < |tr[b].mood| && tr[b].mood[i] == Thinking && StopsEating(who, tr, i, a, b)
  {
    hide Inv, Step, Enabled, Putting;
    TraceInv(n, who, tr, a);
    TraceInv(n, who, tr, b - 1);
    assert Enabled(tr[a], who[a]) && Enabled(tr[b - 1], who[b - 1]);
    EntryStep(tr[a], i);
    PuttingUntil(n, who, tr, i, a, b, b - 1);
    PuttingStep(tr[b - 1], who[b - 1], i);
    StoppedBefore(who, tr, i, a, b - 1);
  }

  /** Nobody is hungry outside, so every round is one of the two. */
  lemma OutsideMood(n: nat, who: seq<nat>, tr: seq<State>, i: nat, a: nat)
    requires n >= 2 && i < n && IsTrace(n, who, tr) && a < |tr| && Outside(tr[a], i)
    ensures i < |tr[a].mood| && tr[a].mood[i] != Hungry
  {
    TraceInv(n, who, tr, a);
    hide M.Inv, SignalsMeanEating, Noticed, WakeupSent, NoNeighboursEat;
    assert PhilOk(tr[a], i);
  }

  // --- somebody eats ---

  /** Everybody is between two rounds. */
  ghost predicate Quiet(s: State)
    requires Shape(s)
  {
    forall j: nat | j < |s.mood| :: BetweenRounds(s, j)
  }

  lemma QuietMonitor(s: State, i: nat)
    requires Inv(s) && Quiet(s) && i < |s.mood|
    ensures s.m.mutex.value > 0 && s.m.nextCount == 0 && s.m.cv[i].count == 0 && s.code[i] == Idle
  {
    hide M.Inv, SignalsMeanEating, Noticed, WakeupSent, NoNeighboursEat;
    assert PhilOk(s, i);
    forall j: nat | j < |s.m.pc| ensures s.m.pc[j].Out? {
      assert BetweenRounds(s, j);
    }
    M.NoLostSignal(s.m);
    assert M.Signallers(s.m.pc) == {} && M.Waiters(s.m.pc, i) == {};
    M.TokenNeverStranded(s.m);
  }

  /** Up to eating: into the monitor, hungry, the test, eating */
  lemma GoesIn(s: State, i: nat) returns (r: State)
    requires Inv(s) && Quiet(s) && i < |s.mood|
    ensures IsRun(s, [i, i, i, i], r) && Shape(r) && |r.mood| == |s.mood| && r.mood[i] == Eating && r.m.pc[i].Body?
    ensures r.code[i] == Sig(i, ThenCheck) && r.m.cv[i].count == 0 && r.m.nextCount == 0
  {
    QuietMonitor(s, i);
    hide Inv;
    RingFacts(i, |s.mood|);
    assert BetweenRounds(s, i) && BetweenRounds(s, Left(i, |s.mood|)) && BetweenRounds(s, Right(i, |s.mood|));
    var s1 := Step(s, i);
    var s2 := Step(s1, i);
    var s3 := Step(s2, i);
    r := Step(s3, i);
    hide Step, Enabled;
    RunOne(s3, i, [], r);
    RunOne(s2, i, [i], r);
    RunOne(s1, i, [i, i], r);
    RunOne(s, i, [i, i, i], r);
  }

  /** From there out: nobody waits to be signalled, and nobody has to be let in first */
  lemma ComesOut(s: State, i: nat) returns (r: State)
    requires Shape(s) && i < |s.mood| && s.mood[i] == Eating && s.m.pc[i].Body?
    requires s.code[i] == Sig(i, ThenCheck) && s.m.cv[i].count == 0 && s.m.nextCount == 0
    ensures IsRun(s, [i, i, i], r) && Outside(r, i) && |r.mood| == |s.mood| && r.mood[i] == Eating
  {
    var s1 := Step(s, i);
    var s2 := Step(s1, i);
    r := Step(s2, i);
    hide Step, Enabled;
    RunOne(s2, i, [], r);
    RunOne(s1, i, [i], r);
    RunOne(s, i, [i, i], r);
  }

  /** Whenever everybody is between two rounds, anybody who then goes on alone eats after seven steps. */
  lemma AnyoneCanEat(s: State, i: nat) returns (r: State)
    requires Inv(s) && Quiet(s) && i < |s.mood|
    ensures IsRun(s, [i, i, i, i, i, i, i], r) && Outside(r, i) && |r.mood| == |s.mood| && r.mood[i] == Eating
  {
    hide Inv, Step, Enabled;
    var t := GoesIn(s, i);
    r := ComesOut(t, i);
    RunOn(s, [i, i, i, i], t, [i, i, i], r);
    assert [i, i, i, i] + [i, i, i] == [i, i, i, i, i, i, i];
  }

  lemma {:induction false} RunOn(s: State, a: seq<nat>, t: State, b: seq<nat>, r: State)
    requires IsRun(s, a, t) && IsRun(t, b, r)
    ensures IsRun(s, a + b, r)
    decreases |a|
  {
    hide Step, Enabled;
    if a == [] {
      assert a + b == b;
    } else {
      RunOn(Step(s, a[0]), a[1..], t, b, r);
      assert (a + b)[1..] == a[1..] + b;
    }
  }

  lemma RunOne(s: State, i: nat, who: seq<nat>, r: State)
    requires Enabled(s, i) && IsRun(Step(s, i), who, r)
    ensures IsRun(s, [i] + who, r)
  {
    assert ([i] + who)[1..] == who;
  }
}
