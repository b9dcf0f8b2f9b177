/** The timer list of kern/schedule/sched.c: each timer stores how much later than its predecessor it expires. */
module TimerLists {
  import opened Counting

  datatype Timer = Timer(id: nat, delta: nat)

  const UINT: nat := 0x1_0000_0000

  // --- the operations on the list ---

  /** add_timer */
  function Insert(l: seq<Timer>, id: nat, e: nat): seq<Timer> {
    if l == [] then [Timer(id, e)]
    else if e < l[0].delta then [Timer(id, e), l[0].(delta := l[0].delta - e)] + l[1..]
    else [l[0]] + Insert(l[1..], id, e - l[0].delta)
  }

  /** del_timer: what the timer had left over its predecessor passes to its successor */
  function Delete(l: seq<Timer>, id: nat): seq<Timer> {
    if l == [] then []
    else if l[0].id != id then [l[0]] + Delete(l[1..], id)
    else if |l| == 1 then []
    else [l[1].(delta := l[1].delta + l[0].delta)] + l[2..]
  }

  /** The timers at the front with nothing left, which run_timer_list wakes, and the rest */
  function Expired(l: seq<Timer>): seq<nat> {
    if l != [] && l[0].delta == 0 then [l[0].id] + Expired(l[1..]) else []
  }

  function Pending(l: seq<Timer>): seq<Timer> {
    if l != [] && l[0].delta == 0 then Pending(l[1..]) else l
  }

  /** run_timer_list decrementing the head */
  function Count(l: seq<Timer>): seq<Timer> {
    if l == [] then [] else [l[0].(delta := if l[0].delta > 0 then l[0].delta - 1 else 0)] + l[1..]
  }

  // --- what the list means: how many ticks each timer has left ---

  function Left(l: seq<Timer>, id: nat): Option<nat> {
    if l == [] then None
    else if l[0].id == id then Some(l[0].delta)
    else match Left(l[1..], id) case None => None case Some(n) => Some(l[0].delta + n)
  }

  function Ids(l: seq<Timer>): seq<nat> {
    if l == [] then [] else [l[0].id] + Ids(l[1..])
  }

  /** Ids are distinct, the head is not due, and no timer has more left than fits the field. */
  ghost predicate Valid(l: seq<Timer>) {
    && Distinct(Ids(l)) && (l != [] ==> l[0].delta > 0)
    && forall id: nat :: Left(l, id).Some? ==> Left(l, id).value < UINT
  }

  lemma {:induction false} LeftIffListed(l: seq<Timer>, id: nat)
    ensures Left(l, id).Some? <==> id in Ids(l)
  {
    if l != [] {
      LeftIffListed(l[1..], id);
    }
  }

  /** add_timer gives the new timer e ticks and changes nobody else's. */
  lemma {:induction false} InsertLeft(l: seq<Timer>, id: nat, e: nat, t: nat)
    requires id !in Ids(l)
    ensures Left(Insert(l, id, e), t) == if t == id then Some(e) else Left(l, t)
  {
    if l != [] {
      var r := Insert(l, id, e);
      if e < l[0].delta {
        assert r[1..] == [l[0].(delta := l[0].delta - e)] + l[1..];
        assert r[1..][1..] == l[1..];
        if t == id {
        } else {
          assert Left(r[1..], t) == if l[0].id == t then Some(l[0].delta - e) else
              (match Left(l[1..], t) case None => None case Some(n) => Some(l[0].delta - e + n));
        }
      } else {
        InsertLeft(l[1..], id, e - l[0].delta, t);
        assert r[1..] == Insert(l[1..], id, e - l[0].delta);
      }
    }
  }

  /** del_timer takes that timer out and changes nobody else's ticks. */
  lemma {:induction false} DeleteLeft(l: seq<Timer>, id: nat, t: nat)
    requires Distinct(Ids(l))
    ensures Left(Delete(l, id), t) == if t == id then None else Left(l, t)
  {
    if l != [] {
      LeftIffListed(l[1..], id);
      TailIds(l);
      var r := Delete(l, id);
      if l[0].id != id {
        DeleteLeft(l[1..], id, t);
        assert r[1..] == Delete(l[1..], id);
      } else if |l| > 1 {
        LeftIffListed(l[1..], t);
        assert r[1..] == l[2..] && l[1..][1..] == l[2..];
      }
    }
  }

  lemma TailIds(l: seq<Timer>)
    requires Distinct(Ids(l)) && l != []
    ensures Distinct(Ids(l[1..])) && l[0].id !in Ids(l[1..])
  {
    DistinctTail(Ids(l));
    assert Ids(l)[1..] == Ids(l[1..]);
  }

  /** add_timer puts the new timer behind all that are due no later, in front of the others, and moves none. */
  lemma {:induction false} InsertOrder(l: seq<Timer>, id: nat, e: nat) returns (k: nat)
    requires Distinct(Ids(l)) && id !in Ids(l)
    ensures k <= |Ids(l)| && Ids(Insert(l, id, e)) == Inserted(Ids(l), k, id)
    ensures forall i | 0 <= i < k :: Left(l, Ids(l)[i]).Some? && Left(l, Ids(l)[i]).value <= e
    ensures forall i | k <= i < |Ids(l)| :: Left(l, Ids(l)[i]).Some? && Left(l, Ids(l)[i]).value > e
  {
    if l == [] {
      k := 0;
    } else if e < l[0].delta {
      k := 0;
      InsertFront(l, id, e);
    } else {
      TailIds(l);
      var m := InsertOrder(l[1..], id, e - l[0].delta);
      k := m + 1;
      var r := Insert(l, id, e);
      assert r[1..] == Insert(l[1..], id, e - l[0].delta);
      assert Ids(r) == [l[0].id] + Inserted(Ids(l[1..]), m, id) == Inserted(Ids(l), k, id);
      forall i | 0 < i < |Ids(l)| ensures Ids(l)[i] == Ids(l[1..])[i - 1] {}
    }
  }

  lemma InsertFront(l: seq<Timer>, id: nat, e: nat)
    requires l != [] && e < l[0].delta
    ensures Ids(Insert(l, id, e)) == [id] + Ids(l)
    ensures forall i | 0 <= i < |Ids(l)| :: Left(l, Ids(l)[i]).Some? && Left(l, Ids(l)[i]).value > e
  {
    var r := Insert(l, id, e);
    assert r[1..] == [l[0].(delta := l[0].delta - e)] + l[1..] && r[1..][1..] == l[1..];
    forall i | 0 <= i < |Ids(l)| ensures Left(l, Ids(l)[i]).Some? && Left(l, Ids(l)[i]).value > e {
      LeftIffListed(l[1..], Ids(l)[i]);
    }
  }

  /** del_timer takes one id out of the list and moves none. */
  lemma {:induction false} DeleteOrder(l: seq<Timer>, id: nat) returns (k: nat)
    requires Distinct(Ids(l)) && id in Ids(l)
    ensures k < |Ids(l)| && Ids(l)[k] == id && Ids(Delete(l, id)) == Removed(Ids(l), k)
  {
    TailIds(l);
    var r := Delete(l, id);
    if l[0].id != id {
      var m := DeleteOrder(l[1..], id);
      k := m + 1;
      assert r[1..] == Delete(l[1..], id);
      assert Ids(r) == [l[0].id] + Removed(Ids(l[1..]), m) == Removed(Ids(l), k);
    } else {
      k := 0;
      if |l| > 1 {
        assert r[1..] == l[2..] && l[1..][1..] == l[2..];
        assert Ids(r) == Ids(l[1..]);
      }
    }
  }

  lemma {:induction false} DeleteAbsent(l: seq<Timer>, id: nat)
    requires id !in Ids(l)
    ensures Delete(l, id) == l
  {
    if l != [] {
      DeleteAbsent(l[1..], id);
    }
  }

  lemma DeleteIds(l: seq<Timer>, id: nat)
    requires Distinct(Ids(l))
    ensures Distinct(Ids(Delete(l, id)))
  {
    if id in Ids(l) {
      var k := DeleteOrder(l, id);
    } else {
      DeleteAbsent(l, id);
    }
  }

  lemma {:induction false} ExpiredLeft(l: seq<Timer>, t: nat)
    requires Distinct(Ids(l))
    ensures t in Expired(l) <==> Left(l, t) == Some(0)
    ensures Left(Pending(l), t) == if Left(l, t) == Some(0) then None else Left(l, t)
    ensures Distinct(Ids(Pending(l))) && (Pending(l) != [] ==> Pending(l)[0].delta > 0)
  {
    if l != [] && l[0].delta == 0 {
      TailIds(l);
      ExpiredLeft(l[1..], t);
      LeftIffListed(l[1..], t);
      LeftIffListed(Pending(l[1..]), t);
    } else if l != [] {
      assert Left(l, t) != Some(0);
    }
  }

  lemma CountLeft(l: seq<Timer>, t: nat)
    requires Valid(l)
    ensures Left(Count(l), t) == (match Left(l, t) case None => None case Some(n) => Some(n - 1))
    ensures Ids(Count(l)) == Ids(l) && (Left(l, t).Some? ==> Left(l, t).value > 0)
  {
    if l != [] {
      assert Count(l)[1..] == l[1..];
    }
  }

  /** run_timer_list: everybody has one tick less, and those that had one left fire and leave the list. */
  lemma TickLeft(l: seq<Timer>, t: nat)
    requires Valid(l)
    ensures t in Expired(Count(l)) <==> Left(l, t) == Some(1)
    ensures Left(Pending(Count(l)), t) ==
            (match Left(l, t) case None => None case Some(n) => if n == 1 then None else Some(n - 1))
  {
    CountLeft(l, t);
    ExpiredLeft(Count(l), t);
  }

  /** The timers fire in list order, and the rest keep theirs. */
  lemma {:induction false} ExpiredOrder(l: seq<Timer>)
    ensures Expired(l) + Ids(Pending(l)) == Ids(l)
  {
    if l != [] && l[0].delta == 0 {
      ExpiredOrder(l[1..]);
    }
  }

  // --- runs ---

  datatype Event = Add(id: nat, expires: nat) | Del(id: nat) | Tick

  /** What the callers of add_timer see to: a timer that is not pending, with a positive 32-bit time. */
  predicate Legal(l: seq<Timer>, ev: Event) {
    ev.Add? ==> ev.id !in Ids(l) && 0 < ev.expires < UINT
  }

  function Do(l: seq<Timer>, ev: Event): seq<Timer> {
    match ev
    case Add(id, e) => Insert(l, id, e)
    case Del(id) => Delete(l, id)
    case Tick => Pending(Count(l))
  }

  function Fires(l: seq<Timer>, ev: Event): seq<nat> {
    if ev.Tick? then Expired(Count(l)) else []
  }

  /** Every operation keeps the list valid; so the assertion of run_timer_list that the head is not due always holds. */
  lemma DoValid(l: seq<Timer>, ev: Event)
    requires Valid(l) && Legal(l, ev)
    ensures Valid(Do(l, ev))
  {
    var r := Do(l, ev);
    forall id: nat | Left(r, id).Some? ensures Left(r, id).value < UINT {
      match ev
      case Add(t, e) => InsertLeft(l, t, e, id);
      case Del(t) => DeleteLeft(l, t, id);
      case Tick => TickLeft(l, id);
    }
    match ev
    case Add(t, e) =>
      var k := InsertOrder(l, t, e);
      InsertedDistinct(Ids(l), k, t);
    case Del(t) =>
      DeleteIds(l, t);
    case Tick =>
      CountLeft(l, 0);
      ExpiredLeft(Count(l), 0);
  }

  lemma InsertedDistinct(s: seq<nat>, k: nat, x: nat)
    requires k <= |s| && Distinct(s) && x !in s
    ensures Distinct(Inserted(s, k, x))
  {
    hide Inserted;
  }

  predicate LegalRun(l: seq<Timer>, evs: seq<Event>)
    decreases |evs|
  {
    evs == [] || (Legal(l, evs[0]) && LegalRun(Do(l, evs[0]), evs[1..]))
  }

  /** What each event of a run makes fire */
  function Fired(l: seq<Timer>, evs: seq<Event>): (f: seq<seq<nat>>)
    ensures |f| == |evs|
    decreases |evs|
  {
    if evs == [] then [] else [Fires(l, evs[0])] + Fired(Do(l, evs[0]), evs[1..])
  }

  function Ticks(evs: seq<Event>): nat {
    if evs == [] then 0 else (if evs[0].Tick? then 1 else 0) + Ticks(evs[1..])
  }

  predicate Untouched(evs: seq<Event>, t: nat) {
    forall i | 0 <= i < |evs| :: evs[i].Tick? || evs[i].id != t
  }

  lemma DoLeft(l: seq<Timer>, ev: Event, t: nat)
    requires Valid(l) && Legal(l, ev) && (ev.Tick? || ev.id != t)
    ensures t in Fires(l, ev) <==> ev.Tick? && Left(l, t) == Some(1)
    ensures Left(Do(l, ev), t) ==
            if !ev.Tick? then Left(l, t)
            else (match Left(l, t) case None => None case Some(n) => if n == 1 then None else Some(n - 1))
  {
    match ev
    case Add(id, e) => InsertLeft(l, id, e, t);
    case Del(id) => DeleteLeft(l, id, t);
    case Tick => TickLeft(l, t);
  }

  /**
    A timer with n ticks left that is neither deleted nor added again fires at the n-th tick of the run and at no other
    event.
    */
  lemma {:induction false} FiresExactlyThen(l: seq<Timer>, evs: seq<Event>, t: nat, i: nat)
    requires Valid(l) && LegalRun(l, evs) && Untouched(evs, t) && i < |evs|
    ensures t in Fired(l, evs)[i] <==> evs[i].Tick? && Left(l, t) == Some(Ticks(evs[..i + 1]))
    decreases |evs|
  {
    DoLeft(l, evs[0], t);
    assert evs[..i + 1][1..] == evs[1..][..i];
    if i > 0 {
      DoValid(l, evs[0]);
      forall j | 0 <= j < |evs[1..]| ensures evs[1..][j] == evs[j + 1] {}
      FiresExactlyThen(Do(l, evs[0]), evs[1..], t, i - 1);
      SomeTick(evs[1..][..i]);
      assert evs[i].Tick? ==> Ticks(evs[1..][..i]) > 0;
    } else {
      assert evs[..1][1..] == [];
    }
  }

  lemma {:induction false} SomeTick(evs: seq<Event>)
    ensures evs != [] && evs[|evs| - 1].Tick? ==> Ticks(evs) > 0
  {
    if |evs| > 1 {
      SomeTick(evs[1..]);
    }
  }

  /** add_timer with e ticks: the timer fires on exactly the e-th run_timer_list that follows. */
  lemma AddedFiresThen(l: seq<Timer>, t: nat, e: nat, evs: seq<Event>, i: nat)
    requires Valid(l) && Legal(l, Add(t, e)) && LegalRun(Insert(l, t, e), evs) && Untouched(evs, t) && i < |evs|
    ensures t in Fired(Insert(l, t, e), evs)[i] <==> evs[i].Tick? && Ticks(evs[..i + 1]) == e
  {
    DoValid(l, Add(t, e));
    InsertLeft(l, t, e, t);
    FiresExactlyThen(Insert(l, t, e), evs, t, i);
  }

  // --- the order of those that fire together ---

  predicate Before(q: seq<nat>, t: nat, u: nat) {
    exists i, j :: 0 <= i < j < |q| && q[i] == t && q[j] == u
  }

  lemma InsertBefore(q: seq<nat>, k: nat, x: nat, t: nat, u: nat)
    requires k <= |q| && Before(q, t, u)
    ensures Before(Inserted(q, k, x), t, u)
  {
    var i, j :| 0 <= i < j < |q| && q[i] == t && q[j] == u;
    var r := Inserted(q, k, x);
    assert r[if i < k then i else i + 1] == t && r[if j < k then j else j + 1] == u;
  }

  lemma RemoveBefore(q: seq<nat>, k: nat, t: nat, u: nat)
    requires k < |q| && q[k] != t && q[k] != u && Before(q, t, u)
    ensures Before(Removed(q, k), t, u)
  {
    var i, j :| 0 <= i < j < |q| && q[i] == t && q[j] == u;
    var r := Removed(q, k);
    assert r[if i < k then i else i - 1] == t && r[if j < k then j else j - 1] == u;
  }

  /** Of two that stand in one order, those in the same part of the list stand in that order there. */
  lemma SplitBefore(a: seq<nat>, b: seq<nat>, t: nat, u: nat)
    requires Distinct(a + b) && Before(a + b, t, u)
    ensures t in a && u in a ==> Before(a, t, u)
    ensures t in b && u in b ==> Before(b, t, u)
  {
    var q := a + b;
    var i, j :| 0 <= i < j < |q| && q[i] == t && q[j] == u;
    if t in a && u in a {
      var m :| 0 <= m < |a| && a[m] == u;
      assert q[m] == u;
      assert a[i] == t && a[j] == u;
    }
    if t in b && u in b {
      var m :| 0 <= m < |b| && b[m] == t;
      assert q[|a| + m] == t;
      assert b[i - |a|] == t && b[j - |a|] == u;
    }
  }

  /** No event changes the order of two timers it does not touch, and a tick fires them in that order. */
  lemma DoBefore(l: seq<Timer>, ev: Event, t: nat, u: nat)
    requires Valid(l) && Legal(l, ev) && Before(Ids(l), t, u) && (ev.Tick? || (ev.id != t && ev.id != u))
    ensures t in Fires(l, ev) && u in Fires(l, ev) ==> Before(Fires(l, ev), t, u)
    ensures t in Ids(Do(l, ev)) && u in Ids(Do(l, ev)) ==> Before(Ids(Do(l, ev)), t, u)
  {
    hide Insert, Delete, Expired, Pending, Count, Before;
    match ev
    case Add(id, e) =>
      var k := InsertOrder(l, id, e);
      InsertBefore(Ids(l), k, id, t, u);
    case Del(id) =>
      if id in Ids(l) {
        var k := DeleteOrder(l, id);
        RemoveBefore(Ids(l), k, t, u);
      } else {
        DeleteAbsent(l, id);
      }
    case Tick =>
      CountLeft(l, t);
      ExpiredOrder(Count(l));
      SplitBefore(Expired(Count(l)), Ids(Pending(Count(l))), t, u);
  }

  /** Over every run, two timers that fire at the same event fire in the order in which they stand in the list. */
  lemma {:induction false} FireInOrder(l: seq<Timer>, evs: seq<Event>, t: nat, u: nat, i: nat)
    requires Valid(l) && LegalRun(l, evs) && Untouched(evs, t) && Untouched(evs, u) && i < |evs|
    requires Before(Ids(l), t, u) && t in Fired(l, evs)[i] && u in Fired(l, evs)[i]
    ensures Before(Fired(l, evs)[i], t, u)
    decreases |evs|
  {
    hide Valid, Before, Do, Fires;
    DoBefore(l, evs[0], t, u);
    if i > 0 {
      var l1 := Do(l, evs[0]);
      DoValid(l, evs[0]);
      forall j | 0 <= j < |evs[1..]| ensures evs[1..][j] == evs[j + 1] {}
      FiresExactlyThen(l1, evs[1..], t, i - 1);
      FiresExactlyThen(l1, evs[1..], u, i - 1);
      LeftIffListed(l1, t);
      LeftIffListed(l1, u);
      FireInOrder(l1, evs[1..], t, u, i - 1);
    }
  }

  /**
    Equal deadlines fire in insertion order: when u is added with as many ticks as t has left, the two fire at the same
    event of every run that touches neither, and t fires first.
    */
  lemma EqualDeadlines(l: seq<Timer>, t: nat, u: nat, e: nat, evs: seq<Event>, i: nat)
    requires Valid(l) && Left(l, t) == Some(e) && Legal(l, Add(u, e)) && LegalRun(Insert(l, u, e), evs)
    requires Untouched(evs, t) && Untouched(evs, u) && i < |evs|
    ensures var fired := Fired(Insert(l, u, e), evs)[i];
            (t in fired <==> u in fired) && (t in fired ==> Before(fired, t, u))
  {
    hide Valid, Insert, LegalRun, Left, Ids, Fired, Ticks, Before, Untouched;
    LeftIffListed(l, t);
    DoValid(l, Add(u, e));
    var l1 := Insert(l, u, e);
    InsertLeft(l, u, e, t);
    InsertLeft(l, u, e, u);
    FiresExactlyThen(l1, evs, t, i);
    FiresExactlyThen(l1, evs, u, i);
    InsertedBehind(l, t, u, e);
    if t in Fired(l1, evs)[i] {
      FireInOrder(l1, evs, t, u, i);
    }
  }

  lemma InsertedBehind(l: seq<Timer>, t: nat, u: nat, e: nat)
    requires Valid(l) && u !in Ids(l) && t in Ids(l) && Left(l, t) == Some(e)
    ensures Before(Ids(Insert(l, u, e)), t, u)
  {
    var k := InsertOrder(l, u, e);
    var i :| 0 <= i < |Ids(l)| && Ids(l)[i] == t;
    assert i < k;
    var r := Inserted(Ids(l), k, u);
    assert r[i] == t && r[k] == u;
  }
}

/** add_timer, del_timer and run_timer_list as loops over the list. */
module Timers {
  import opened Counting
  import opened TimerLists

  lemma InsertAt(l: seq<Timer>, i: nat, id: nat, e: nat, whole: seq<Timer>)
    requires i < |l| && l[i].delta <= e && whole == l[..i] + Insert(l[i..], id, e)
    ensures whole == l[..i + 1] + Insert(l[i + 1..], id, e - l[i].delta)
  {
    assert l[i..][1..] == l[i + 1..];
  }

  lemma InsertHere(l: seq<Timer>, i: nat, id: nat, e: nat, whole: seq<Timer>)
    requires i < |l| && e < l[i].delta && whole == l[..i] + Insert(l[i..], id, e)
    ensures var l2 := l[i := l[i].(delta := l[i].delta - e)]; whole == l2[..i] + [Timer(id, e)] + l2[i..]
  {
    var l2 := l[i := l[i].(delta := l[i].delta - e)];
    assert l2[..i] == l[..i] && l2[i..] == [l2[i]] + l[i + 1..] && l[i..][1..] == l[i + 1..];
  }

  lemma InsertLast(l: seq<Timer>, id: nat, e: nat, whole: seq<Timer>)
    requires whole == l[..|l|] + Insert(l[|l|..], id, e)
    ensures whole == l[..|l|] + [Timer(id, e)] + l[|l|..]
  {
    assert l[|l|..] == [];
  }

  /** The list del_timer leaves, by position */
  function WithoutAt(l: seq<Timer>, i: nat): seq<Timer>
    requires i < |l|
  {
    if i + 1 == |l| then l[..i] else l[..i] + [l[i + 1].(delta := l[i + 1].delta + l[i].delta)] + l[i + 2..]
  }

  lemma DeleteTail(l: seq<Timer>, id: nat)
    requires l != []
    ensures l[0].id != id ==> Delete(l, id) == [l[0]] + Delete(l[1..], id)
    ensures l[0].id == id ==> Delete(l, id) == WithoutAt(l, 0)
  {}

  lemma WithoutTail(l: seq<Timer>, i: nat)
    requires 0 < i < |l|
    ensures WithoutAt(l, i) == [l[0]] + WithoutAt(l[1..], i - 1)
  {}

  lemma {:induction false} DeleteAt(l: seq<Timer>, i: nat)
    requires Distinct(Ids(l)) && i < |l|
    ensures Delete(l, l[i].id) == WithoutAt(l, i)
  {
    hide Delete, WithoutAt, Ids;
    DeleteTail(l, l[i].id);
    if i > 0 {
      TailIds(l);
      IdAt(l[1..], i - 1);
      DeleteAt(l[1..], i - 1);
      WithoutTail(l, i);
    }
  }

  lemma {:induction false} IdAt(l: seq<Timer>, i: nat)
    requires i < |l|
    ensures l[i].id in Ids(l)
  {
    if i > 0 {
      IdAt(l[1..], i - 1);
    }
  }

  lemma {:induction false} DeltasAdd(l: seq<Timer>, i: nat)
    requires Distinct(Ids(l)) && i + 1 < |l|
    ensures Left(l, l[i + 1].id).Some? && Left(l, l[i + 1].id).value >= l[i].delta + l[i + 1].delta
  {
    TailIds(l);
    IdAt(l[1..], i);
    if i > 0 {
      DeltasAdd(l[1..], i - 1);
    } else {
      assert l[1..][0] == l[1];
    }
  }

  lemma ValidFacts(l: seq<Timer>)
    requires Valid(l)
    ensures Distinct(Ids(l)) && forall id: nat :: Left(l, id).Some? ==> Left(l, id).value < UINT
  {}

  class TimerList {
    var list: seq<Timer>

    constructor ()
      ensures list == [] && Valid(list)
    {
      list := [];
    }

    method AddTimer(id: nat, expires: nat)
      requires Valid(list) && Legal(list, Add(id, expires))
      modifies this
      ensures Valid(list) && list == Insert(old(list), id, expires)
    {
      hide Valid, Legal, Insert;
      DoValid(list, Add(id, expires));
      var i: nat, e: nat := 0, expires;
      assert list[0..] == list;
      while i < |list|
        invariant i <= |list| && list == old(list) && Insert(list, id, expires) == list[..i] + Insert(list[i..], id, e)
        decreases |list| - i
      {
        if e < list[i].delta {
          InsertHere(list, i, id, e, Insert(list, id, expires));
          list := list[i := list[i].(delta := list[i].delta - e)];
          break;
        }
        InsertAt(list, i, id, e, Insert(list, id, expires));
        e := e - list[i].delta;
        i := i + 1;
      }
      if i == |list| {
        InsertLast(list, id, e, Insert(list, id, expires));
      }
      list := list[..i] + [Timer(id, e)] + list[i..];
      assert list == Insert(old(list), id, expires);
    }

    /** The timer is the entry at position `at`, or not linked at all */
    method DelTimer(id: nat, at: Option<nat>)
      requires Valid(list)
      requires match at case Some(i) => i < |list| && list[i].id == id case None => id !in Ids(list)
      modifies this
      ensures Valid(list) && list == Delete(old(list), id)
    {
      hide Valid;
      DoValid(list, Del(id));
      ValidFacts(list);
      if at.Some? {
        var i := at.value;
        DeleteAt(list, i);
        if list[i].delta != 0 && i + 1 < |list| {
          DeltasAdd(list, i);
          assert list[i + 1].delta + list[i].delta < UINT;
          list := list[i + 1 := list[i + 1].(delta := list[i + 1].delta + list[i].delta)];
        }
        list := list[..i] + list[i + 1..];
        assert list == Delete(old(list), id);
      } else {
        DeleteAbsent(list, id);
      }
    }

    /** The timers whose processes are woken by this tick, in the order in which they are woken */
    method RunTimerList() returns (fired: seq<nat>)
      requires Valid(list)
      modifies this
      ensures Valid(list) && list == Pending(Count(old(list))) && fired == Expired(Count(old(list)))
    {
      hide Valid;
      DoValid(list, Tick);
      fired := [];
      if list != [] {
        assert list[0].delta != 0 by { HeadNotDue(list); }
        list := list[0 := list[0].(delta := list[0].delta - 1)];
        assert list == Count(old(list));
        while list != [] && list[0].delta == 0
          invariant Pending(list) == Pending(Count(old(list))) && fired + Expired(list) == Expired(Count(old(list)))
          decreases |list|
        {
          fired := fired + [list[0].id];
          list := list[1..];
        }
      }
    }
  }

  lemma HeadNotDue(l: seq<Timer>)
    requires Valid(l) && l != []
    ensures l[0].delta > 0
  {}
}
