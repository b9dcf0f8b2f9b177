/** What the process tree and the scheduler both know of a process. */
module ProcessStates {
  datatype Run = Runnable | Sleeping | Zombie

  /** Processes are named by the order in which do_fork made them: idle is 0, init is 1. */
  const IDLE: nat := 0
  const INIT: nat := 1
}

/** The process tree of kern/process/proc.c: parent links and the child lists threaded through cptr, optr and yptr. */
module ProcessTree {
  import opened Counting
  import opened ProcessStates

  /** wait_state: not waiting, waiting for a child (0 stands for any) or for something else, perhaps interruptibly */
  datatype Wait = NoWait | ForChild(pid: nat) | ForOther(interruptible: bool)

  datatype Proc = Proc(pid: nat, state: Run, wait: Wait, exiting: bool, parent: nat,
                       cptr: Option<nat>, optr: Option<nat>, yptr: Option<nat>)
  {
    /** Equal apart from the links */
    predicate SameLife(o: Proc) { pid == o.pid && state == o.state && wait == o.wait && exiting == o.exiting }
  }

  function Nth(s: seq<nat>, i: int): Option<nat> {
    if 0 <= i < |s| then Some(s[i]) else None
  }

  /** Child i of the list has the right parent and siblings; `cut` leaves open the younger sibling of the first. */
  predicate ChildOk(procs: map<nat, Proc>, p: nat, kids: seq<nat>, cut: bool, i: nat)
    requires i < |kids|
  {
    var c := kids[i];
    && c in procs && procs[c].parent == p && procs[c].optr == Nth(kids, i + 1)
    && (procs[c].yptr == Nth(kids, i - 1) || (i == 0 && cut))
  }

  /** `kids` are the children of p, youngest first, exactly as cptr, optr and yptr link them. */
  predicate Kids(procs: map<nat, Proc>, p: nat, kids: seq<nat>, cut: bool) {
    && p in procs && procs[p].cptr == Nth(kids, 0) && Distinct(kids)
    && forall i: nat | i < |kids| :: ChildOk(procs, p, kids, cut, i)
  }

  predicate SameLinks(a: Proc, b: Proc) {
    a.parent == b.parent && a.optr == b.optr && a.yptr == b.yptr
  }

  lemma KidsFrame(procs: map<nat, Proc>, after: map<nat, Proc>, p: nat, kids: seq<nat>, cut: bool)
    requires Kids(procs, p, kids, cut) && p in after && after[p].cptr == procs[p].cptr
    requires forall c | c in kids :: c in procs && c in after && SameLinks(procs[c], after[c])
    ensures Kids(after, p, kids, cut)
  {
    forall i: nat | i < |kids| ensures ChildOk(after, p, kids, cut, i) {
      assert ChildOk(procs, p, kids, cut, i) && kids[i] in kids;
    }
  }

  /** Linking c in front of the children of p, as set_links and do_exit do it. */
  function Adopt(procs: map<nat, Proc>, p: nat, c: nat): (r: map<nat, Proc>)
    requires p in procs && c in procs && p != c && (procs[p].cptr.Some? ==> procs[p].cptr.value in procs)
    requires procs[p].cptr != Some(p) && procs[p].cptr != Some(c)
    ensures r.Keys == procs.Keys
    ensures forall x | x in procs ::
              r[x] == if x == c then procs[x].(parent := p, yptr := None, optr := procs[p].cptr)
                      else if x == p then procs[x].(cptr := Some(c))
                      else if Some(x) == procs[p].cptr then procs[x].(yptr := Some(c))
                      else procs[x]
  {
    var head := procs[p].cptr;
    var a := procs[c := procs[c].(parent := p, yptr := None, optr := head)];
    var b := if head.Some? then a[head.value := a[head.value].(yptr := Some(c))] else a;
    b[p := b[p].(cptr := Some(c))]
  }

  lemma AdoptKids(procs: map<nat, Proc>, p: nat, c: nat, kids: seq<nat>)
    requires Kids(procs, p, kids, false) && c in procs && p != c && c !in kids && p !in kids
    requires procs[p].cptr.Some? ==> procs[p].cptr.value in procs
    requires procs[p].cptr != Some(p) && procs[p].cptr != Some(c)
    ensures Kids(Adopt(procs, p, c), p, [c] + kids, false)
  {
    var r, k2 := Adopt(procs, p, c), [c] + kids;
    forall i: nat | i < |k2| ensures ChildOk(r, p, k2, false, i) {
      if i > 0 {
        assert ChildOk(procs, p, kids, false, i - 1);
        assert k2[i] == kids[i - 1];
        assert i > 1 ==> kids[i - 1] != kids[0];
      }
    }
  }

  predicate Linkable(procs: map<nat, Proc>, c: nat) {
    && c in procs && procs[c].parent in procs
    && (procs[c].optr.Some? ==> procs[c].optr.value in procs) && (procs[c].yptr.Some? ==> procs[c].yptr.value in procs)
  }

  /** Taking c out of the children of its parent, as remove_links does it. */
  function Unlink(procs: map<nat, Proc>, c: nat): (r: map<nat, Proc>)
    requires Linkable(procs, c)
    ensures r.Keys == procs.Keys
    ensures forall x | x in procs ::
              && r[x].parent == procs[x].parent && r[x].SameLife(procs[x])
              && r[x].yptr == (if procs[c].optr == Some(x) then procs[c].yptr else procs[x].yptr)
              && r[x].optr == (if procs[c].yptr == Some(x) then procs[c].optr else procs[x].optr)
              && r[x].cptr == (if procs[c].yptr == None && x == procs[c].parent then procs[c].optr else procs[x].cptr)
  {
    var o, y := procs[c].optr, procs[c].yptr;
    var a := if o.Some? then procs[o.value := procs[o.value].(yptr := y)] else procs;
    if y.Some? then a[y.value := a[y.value].(optr := o)]
    else a[procs[c].parent := a[procs[c].parent].(cptr := o)]
  }

  lemma UnlinkKids(procs: map<nat, Proc>, p: nat, kids: seq<nat>, k: nat)
    requires Kids(procs, p, kids, false) && k < |kids| && p !in kids
    requires Linkable(procs, kids[k])
    ensures Kids(Unlink(procs, kids[k]), p, Removed(kids, k), false)
  {
    var r, k2 := Unlink(procs, kids[k]), Removed(kids, k);
    hide Removed;
    assert ChildOk(procs, p, kids, false, k);
    forall i: nat | i < |k2| ensures ChildOk(r, p, k2, false, i) {
      var j := if i < k then i else i + 1;
      assert ChildOk(procs, p, kids, false, j) && k2[i] == kids[j] && kids[j] != kids[k];
      assert k > 0 && j != k - 1 ==> kids[j] != kids[k - 1];
      assert k + 1 < |kids| && j != k + 1 ==> kids[j] != kids[k + 1];
    }
  }

  /**
    The parent links form a tree rooted at idle, whose only child is init; kids lists everybody's children, each parent
    being older than its children. The list of `cut` may be in the middle of being handed over, and `orphan` is in no
    list.
    */
  ghost predicate Forest(procs: map<nat, Proc>, kids: map<nat, seq<nat>>, cut: Option<nat>, orphan: Option<nat>) {
    && procs.Keys == kids.Keys && IDLE in procs && INIT in procs && kids[IDLE] == [INIT] && procs[IDLE].parent == IDLE
    && (forall p | p in procs :: Kids(procs, p, kids[p], cut == Some(p)))
    && (forall c | c in procs && c != IDLE && orphan != Some(c) :: Rooted(procs, kids, c))
    && (forall p | p in procs && orphan.Some? :: orphan.value !in kids[p])
    && orphan != Some(IDLE) && orphan != Some(INIT)
  }

  predicate Rooted(procs: map<nat, Proc>, kids: map<nat, seq<nat>>, c: nat)
    requires c in procs && procs.Keys == kids.Keys
  {
    var p := procs[c].parent;
    p in procs && p < c && c in kids[p]
  }

  lemma ParentOf(procs: map<nat, Proc>, p: nat, kids: seq<nat>, cut: bool, c: nat)
    requires Kids(procs, p, kids, cut) && c in kids
    ensures c in procs && procs[c].parent == p
  {
    var i: nat :| i < |kids| && kids[i] == c;
    assert ChildOk(procs, p, kids, cut, i);
  }

  /** A child is in no list but its parent's. */
  lemma OneParent(procs: map<nat, Proc>, kids: map<nat, seq<nat>>, cut: Option<nat>, orphan: Option<nat>, p: nat,
                  c: nat)
    requires Forest(procs, kids, cut, orphan) && p in procs && c in kids[p]
    ensures c in procs && procs[c].parent == p && c != IDLE && p < c && Some(c) != orphan
  {
    hide Kids;
    ParentOf(procs, p, kids[p], cut == Some(p), c);
    assert c != IDLE ==> Rooted(procs, kids, c);
  }

  /** alloc_proc: a new process that is nobody's child yet. */
  lemma AddOrphan(procs: map<nat, Proc>, kids: map<nat, seq<nat>>, c: nat, proc: Proc)
    requires Forest(procs, kids, None, None) && c !in procs && c > INIT && proc.cptr == None
    ensures Forest(procs[c := proc], kids[c := []], None, Some(c))
  {
    hide Kids, Rooted;
    var procs1, kids1 := procs[c := proc], kids[c := []];
    NoKids(procs1, c);
    forall p | p in procs ensures Kids(procs1, p, kids[p], false) && c !in kids[p] {
      AddOther(procs, kids, c, proc, p);
    }
    forall x | x in procs && x != IDLE ensures Rooted(procs1, kids1, x) {
      assert Rooted(procs, kids, x);
      AddRooted(procs, kids, c, proc, x);
    }
  }

  lemma AddRooted(procs: map<nat, Proc>, kids: map<nat, seq<nat>>, c: nat, proc: Proc, x: nat)
    requires procs.Keys == kids.Keys && c !in procs && x in procs && Rooted(procs, kids, x)
    ensures Rooted(procs[c := proc], kids[c := []], x)
  {}

  lemma AddOther(procs: map<nat, Proc>, kids: map<nat, seq<nat>>, c: nat, proc: Proc, p: nat)
    requires Forest(procs, kids, None, None) && c !in procs && p in procs
    ensures Kids(procs[c := proc], p, kids[p], false) && c !in kids[p]
  {
    hide Kids, Rooted;
    forall x | x in kids[p] ensures x in procs && x != c {
      OneParent(procs, kids, None, None, p, x);
    }
    KidsFrame(procs, procs[c := proc], p, kids[p], false);
  }

  lemma NoKids(procs: map<nat, Proc>, p: nat)
    requires p in procs && procs[p].cptr == None
    ensures Kids(procs, p, [], false)
  {}

  lemma HeadIn(procs: map<nat, Proc>, p: nat, kids: seq<nat>, cut: bool)
    requires Kids(procs, p, kids, cut)
    ensures procs[p].cptr.Some? ==> procs[p].cptr.value in procs && kids != [] && kids[0] == procs[p].cptr.value
  {
    if kids != [] {
      assert ChildOk(procs, p, kids, cut, 0);
    }
  }

  lemma AdoptOther(procs: map<nat, Proc>, kids: map<nat, seq<nat>>, cut: Option<nat>, p: nat, c: nat, q: nat)
    requires Forest(procs, kids, cut, Some(c)) && p in procs && c in procs && p < c && q in procs && q != p
    requires procs[p].cptr.Some? ==> procs[p].cptr.value in kids[p] && procs[p].cptr.value in procs
    requires procs[p].cptr != Some(p) && procs[p].cptr != Some(c)
    ensures Kids(Adopt(procs, p, c), q, kids[q], cut == Some(q))
  {
    hide Kids, Adopt;
    var procs1 := Adopt(procs, p, c);
    forall x | x in kids[q] ensures x in procs && x in procs1 && SameLinks(procs[x], procs1[x]) {
      OneParent(procs, kids, cut, Some(c), q, x);
      if procs[p].cptr == Some(x) {
        OneParent(procs, kids, cut, Some(c), p, x);
      }
    }
    KidsFrame(procs, procs1, q, kids[q], cut == Some(q));
  }

  lemma HeadFacts(procs: map<nat, Proc>, kids: map<nat, seq<nat>>, cut: Option<nat>, orphan: Option<nat>, p: nat)
    requires Forest(procs, kids, cut, orphan) && p in procs
    ensures p !in kids[p] && procs[p].cptr != Some(p) && (orphan.Some? ==> procs[p].cptr != orphan)
    ensures procs[p].cptr.Some? ==> procs[p].cptr.value in procs && procs[p].cptr.value in kids[p]
  {
    hide Kids;
    HeadIn(procs, p, kids[p], cut == Some(p));
    if p in kids[p] {
      OneParent(procs, kids, cut, orphan, p, p);
    }
  }

  /** Linking the orphan in front of the children of an older process. */
  lemma AdoptForest(procs: map<nat, Proc>, kids: map<nat, seq<nat>>, cut: Option<nat>, p: nat, c: nat)
    requires Forest(procs, kids, cut, Some(c)) && p in procs && c in procs && p < c && cut != Some(p) && p != IDLE
    ensures (procs[p].cptr.Some? ==> procs[p].cptr.value in procs) && procs[p].cptr != Some(p)
    ensures procs[p].cptr != Some(c)
    ensures Forest(Adopt(procs, p, c), kids[p := [c] + kids[p]], cut, None)
  {
    hide Kids, Adopt, Rooted;
    HeadFacts(procs, kids, cut, Some(c), p);
    var procs1, kids1 := Adopt(procs, p, c), kids[p := [c] + kids[p]];
    AdoptKids(procs, p, c, kids[p]);
    forall q | q in procs && q != p ensures Kids(procs1, q, kids[q], cut == Some(q)) {
      AdoptOther(procs, kids, cut, p, c, q);
    }
    forall x | x in procs1 && x != IDLE ensures Rooted(procs1, kids1, x) {
      assert x != c ==> Rooted(procs, kids, x);
      AdoptRooted(procs, kids, p, c, x);
    }
  }

  lemma AdoptRooted(procs: map<nat, Proc>, kids: map<nat, seq<nat>>, p: nat, c: nat, x: nat)
    requires procs.Keys == kids.Keys && p in procs && c in procs && p < c && x in procs
    requires (x != c ==> Rooted(procs, kids, x))
    requires procs[p].cptr.Some? ==> procs[p].cptr.value in procs
    requires procs[p].cptr != Some(p) && procs[p].cptr != Some(c)
    ensures Rooted(Adopt(procs, p, c), kids[p := [c] + kids[p]], x)
  {
    hide Adopt;
  }

  lemma PopKids(procs: map<nat, Proc>, x: nat, kids: seq<nat>)
    requires Kids(procs, x, kids, true) && kids != [] && x !in kids && kids[0] in procs
    ensures procs[x].cptr == Some(kids[0])
    ensures Kids(procs[x := procs[x].(cptr := procs[kids[0]].optr)], x, kids[1..], true)
  {
    var r, k2 := procs[x := procs[x].(cptr := procs[kids[0]].optr)], kids[1..];
    assert ChildOk(procs, x, kids, true, 0);
    forall i: nat | i < |k2| ensures ChildOk(r, x, k2, true, i) {
      assert ChildOk(procs, x, kids, true, i + 1);
    }
  }

  /** do_exit taking the youngest child off the list of the dying process. */
  lemma PopForest(procs: map<nat, Proc>, kids: map<nat, seq<nat>>, x: nat)
    requires Forest(procs, kids, Some(x), None) && x in procs && x != IDLE && kids[x] != []
    ensures var c := kids[x][0];
            && c in procs && c > INIT && c > x && procs[x].cptr == Some(c)
            && Forest(procs[x := procs[x].(cptr := procs[c].optr)], kids[x := kids[x][1..]], Some(x), Some(c))
  {
    hide Kids, Rooted;
    var c := kids[x][0];
    OneParent(procs, kids, Some(x), None, x, c);
    OneParent(procs, kids, Some(x), None, IDLE, INIT);
    HeadFacts(procs, kids, Some(x), None, x);
    PopKids(procs, x, kids[x]);
    var procs1, kids1 := procs[x := procs[x].(cptr := procs[c].optr)], kids[x := kids[x][1..]];
    forall q | q in procs && q != x ensures Kids(procs1, q, kids[q], false) && c !in kids[q] {
      PopOther(procs, kids, x, q);
    }
    assert c !in kids[x][1..] by {
      assert Kids(procs, x, kids[x], true);
      HeadOnce(procs, x, kids[x], true);
    }
    forall y | y in procs && y != IDLE && y != c ensures Rooted(procs1, kids1, y) {
      assert Rooted(procs, kids, y);
      PopRooted(procs, kids, x, y);
    }
  }

  lemma HeadOnce(procs: map<nat, Proc>, p: nat, kids: seq<nat>, cut: bool)
    requires Kids(procs, p, kids, cut) && kids != []
    ensures kids[0] !in kids[1..]
  {}

  lemma PopRooted(procs: map<nat, Proc>, kids: map<nat, seq<nat>>, x: nat, y: nat)
    requires procs.Keys == kids.Keys && x in procs && kids[x] != [] && kids[x][0] in procs && y in procs
    requires y != kids[x][0]
    requires Rooted(procs, kids, y)
    ensures Rooted(procs[x := procs[x].(cptr := procs[kids[x][0]].optr)], kids[x := kids[x][1..]], y)
  {
    assert kids[x] == [kids[x][0]] + kids[x][1..];
  }

  lemma PopOther(procs: map<nat, Proc>, kids: map<nat, seq<nat>>, x: nat, q: nat)
    requires Forest(procs, kids, Some(x), None) && x in procs && kids[x] != [] && kids[x][0] in procs && q in procs
    requires q != x
    ensures Kids(procs[x := procs[x].(cptr := procs[kids[x][0]].optr)], q, kids[q], false) && kids[x][0] !in kids[q]
  {
    hide Kids, Rooted;
    var procs1 := procs[x := procs[x].(cptr := procs[kids[x][0]].optr)];
    OneParent(procs, kids, Some(x), None, x, kids[x][0]);
    forall y | y in kids[q] ensures y in procs && y in procs1 && SameLinks(procs[y], procs1[y]) && y != kids[x][0] {
      OneParent(procs, kids, Some(x), None, q, y);
    }
    KidsFrame(procs, procs1, q, kids[q], false);
  }

  /** remove_links: c leaves its parent's list. */
  lemma UnlinkForest(procs: map<nat, Proc>, kids: map<nat, seq<nat>>, p: nat, k: nat)
    requires Forest(procs, kids, None, None) && p in procs && p != IDLE && k < |kids[p]|
    ensures Linkable(procs, kids[p][k]) && procs[kids[p][k]].parent == p
    ensures Forest(Unlink(procs, kids[p][k]), kids[p := Removed(kids[p], k)], None, Some(kids[p][k]))
  {
    hide Kids, Rooted, Unlink, Removed;
    var c := kids[p][k];
    OneParent(procs, kids, None, None, p, c);
    OneParent(procs, kids, None, None, IDLE, INIT);
    HeadFacts(procs, kids, None, None, p);
    SiblingFacts(procs, p, kids[p], k);
    UnlinkKids(procs, p, kids[p], k);
    var procs1, kids1 := Unlink(procs, c), kids[p := Removed(kids[p], k)];
    forall q | q in procs && q != p ensures Kids(procs1, q, kids[q], false) && c !in kids[q] {
      UnlinkOther(procs, kids, p, k, q);
    }
    forall y | y in procs && y != IDLE && y != c ensures Rooted(procs1, kids1, y) {
      assert Rooted(procs, kids, y);
      UnlinkRooted(procs, kids, p, k, y);
    }
  }

  lemma SiblingFacts(procs: map<nat, Proc>, p: nat, kids: seq<nat>, k: nat)
    requires Kids(procs, p, kids, false) && k < |kids|
    ensures Linkable(procs, kids[k]) && procs[kids[k]].parent == p && kids[k] !in Removed(kids, k) && Distinct(kids)
    ensures procs[kids[k]].optr.Some? ==> procs[kids[k]].optr.value in kids
    ensures procs[kids[k]].yptr.Some? ==> procs[kids[k]].yptr.value in kids
  {
    assert ChildOk(procs, p, kids, false, k);
    if k > 0 {
      assert ChildOk(procs, p, kids, false, k - 1);
    }
    if k + 1 < |kids| {
      assert ChildOk(procs, p, kids, false, k + 1);
    }
    RemovedMembers(kids, k);
  }

  lemma UnlinkRooted(procs: map<nat, Proc>, kids: map<nat, seq<nat>>, p: nat, k: nat, y: nat)
    requires procs.Keys == kids.Keys && p in procs && k < |kids[p]| && y in procs && y != kids[p][k]
    requires Distinct(kids[p])
    requires Linkable(procs, kids[p][k]) && Rooted(procs, kids, y)
    ensures Rooted(Unlink(procs, kids[p][k]), kids[p := Removed(kids[p], k)], y)
  {
    hide Unlink, Removed;
    RemovedMembers(kids[p], k);
  }

  lemma UnlinkOther(procs: map<nat, Proc>, kids: map<nat, seq<nat>>, p: nat, k: nat, q: nat)
    requires Forest(procs, kids, None, None) && p in procs && k < |kids[p]| && q in procs && q != p
    requires Linkable(procs, kids[p][k]) && procs[kids[p][k]].parent == p
    ensures Kids(Unlink(procs, kids[p][k]), q, kids[q], false) && kids[p][k] !in kids[q]
  {
    hide Kids, Rooted, Unlink, Removed;
    var c, procs1 := kids[p][k], Unlink(procs, kids[p][k]);
    SiblingFacts(procs, p, kids[p], k);
    forall y | y in kids[q] ensures y in procs && y in procs1 && SameLinks(procs[y], procs1[y]) && y != c {
      OneParent(procs, kids, None, None, q, y);
      if y in kids[p] {
        OneParent(procs, kids, None, None, p, y);
      }
    }
    KidsFrame(procs, procs1, q, kids[q], false);
  }

  /** kfree(proc): a process without children and parent disappears. */
  lemma DeleteForest(procs: map<nat, Proc>, kids: map<nat, seq<nat>>, c: nat)
    requires Forest(procs, kids, None, Some(c)) && c in procs && kids[c] == []
    ensures Forest(procs - {c}, kids - {c}, None, None)
  {
    hide Kids, Rooted;
    var procs1, kids1 := procs - {c}, kids - {c};
    forall q | q in procs1 ensures Kids(procs1, q, kids[q], false) {
      forall y | y in kids[q] ensures y in procs && y in procs1 && SameLinks(procs[y], procs1[y]) {
        OneParent(procs, kids, None, Some(c), q, y);
      }
      KidsFrame(procs, procs1, q, kids[q], false);
    }
    forall y | y in procs1 && y != IDLE ensures Rooted(procs1, kids1, y) {
      assert Rooted(procs, kids, y);
      DeleteRooted(procs, kids, c, y);
    }
  }

  lemma DeleteRooted(procs: map<nat, Proc>, kids: map<nat, seq<nat>>, c: nat, y: nat)
    requires procs.Keys == kids.Keys && c in procs && kids[c] == [] && y in procs && y != c && Rooted(procs, kids, y)
    ensures Rooted(procs - {c}, kids - {c}, y)
  {}

  /** Links do not depend on who runs, sleeps or waits. */
  lemma SameLinksForest(procs: map<nat, Proc>, procs1: map<nat, Proc>, kids: map<nat, seq<nat>>, cut: Option<nat>,
                        orphan: Option<nat>)
    requires Forest(procs, kids, cut, orphan) && procs1.Keys == procs.Keys
    requires forall p | p in procs :: procs1[p].cptr == procs[p].cptr && SameLinks(procs[p], procs1[p])
    ensures Forest(procs1, kids, cut, orphan)
  {
    hide Kids;
    forall q | q in procs ensures Kids(procs1, q, kids[q], cut == Some(q)) {
      forall y | y in kids[q] ensures y in procs {
        OneParent(procs, kids, cut, orphan, q, y);
      }
      KidsFrame(procs, procs1, q, kids[q], cut == Some(q));
    }
    forall y | y in procs1 && y != IDLE && orphan != Some(y) ensures Rooted(procs1, kids, y) {
      assert Rooted(procs, kids, y);
    }
  }

  // --- who may be asleep ---

  /**
    Among these children there is one to wait for, and it has not exited: any of them for pid 0, the one with that pid
    otherwise.
    */
  predicate Awaits(procs: map<nat, Proc>, kids: seq<nat>, pid: nat) {
    if pid == 0 then kids != [] && forall c | c in kids :: c in procs && procs[c].state != Zombie
    else exists c | c in kids :: c in procs && procs[c].pid == pid && procs[c].state != Zombie
  }

  /** Zombies are childless, only sleepers wait, and nobody sleeps on a child that has already exited. */
  predicate LifeOk(procs: map<nat, Proc>, kids: map<nat, seq<nat>>, p: nat)
    requires p in procs && procs.Keys == kids.Keys
  {
    && (procs[p].state == Zombie ==> kids[p] == [] && p > INIT)
    && (procs[p].state != Sleeping ==> procs[p].wait == NoWait)
    && (procs[p].wait.ForChild? ==> Awaits(procs, kids[p], procs[p].wait.pid))
  }

  lemma LifeFrame(procs: map<nat, Proc>, kids: map<nat, seq<nat>>, procs1: map<nat, Proc>, kids1: map<nat, seq<nat>>,
                  p: nat)
    requires p in procs && procs.Keys == kids.Keys && LifeOk(procs, kids, p)
    requires p in procs1 && procs1.Keys == kids1.Keys && kids1[p] == kids[p] && procs1[p].SameLife(procs[p])
    requires forall c | c in kids[p] && c in procs :: c in procs1 && procs1[c].SameLife(procs[c])
    ensures LifeOk(procs1, kids1, p)
  {}

  ghost predicate Lives(procs: map<nat, Proc>, kids: map<nat, seq<nat>>)
    requires procs.Keys == kids.Keys
  {
    && (forall p | p in procs :: LifeOk(procs, kids, p))
    && UniquePids(procs)
  }

  predicate UniquePids(procs: map<nat, Proc>) {
    forall a, b | a in procs && b in procs && procs[a].pid == procs[b].pid :: a == b
  }
}

/** do_fork, do_exit, do_wait and do_kill, as far as the process tree and the wait states go. */
module ProcessLife {
  import opened Counting
  import opened ProcessStates
  import opened ProcessTree

  const MAX_PROCESS: nat := 4096

  /** What wakeup_proc leaves in the process structure */
  function Woken(procs: map<nat, Proc>, p: nat): map<nat, Proc>
    requires p in procs
  {
    procs[p := procs[p].(state := Runnable, wait := NoWait)]
  }

  lemma {:induction false} NoOther(procs: map<nat, Proc>, kids: map<nat, seq<nat>>, x: nat)
    requires Forest(procs, kids, None, None) && kids[INIT] == [] && x in procs
    ensures x == IDLE || x == INIT
    decreases x
  {
    hide Kids;
    if x != IDLE && x != INIT {
      assert Rooted(procs, kids, x);
      NoOther(procs, kids, procs[x].parent);
    }
  }

  lemma CutForest(procs: map<nat, Proc>, kids: map<nat, seq<nat>>, x: nat)
    requires Forest(procs, kids, None, None) && x in procs
    ensures Forest(procs, kids, Some(x), None)
  {
    hide Kids;
    forall q | q in procs ensures Kids(procs, q, kids[q], q == x) {
      assert Kids(procs, q, kids[q], false);
      CutKids(procs, q, kids[q], q == x);
    }
  }

  lemma CutKids(procs: map<nat, Proc>, p: nat, kids: seq<nat>, cut: bool)
    requires Kids(procs, p, kids, false)
    ensures Kids(procs, p, kids, cut)
  {
    forall i: nat | i < |kids| ensures ChildOk(procs, p, kids, cut, i) {
      assert ChildOk(procs, p, kids, false, i);
    }
  }

  lemma EmptiedForest(procs: map<nat, Proc>, kids: map<nat, seq<nat>>, x: nat)
    requires Forest(procs, kids, Some(x), None) && x in procs && kids[x] == []
    ensures Forest(procs, kids, None, None)
  {
    hide Kids;
    forall q | q in procs ensures Kids(procs, q, kids[q], false) {
      assert Kids(procs, q, kids[q], q == x);
      if q == x {
        EmptyKids(procs, x);
      }
    }
  }

  lemma EmptyKids(procs: map<nat, Proc>, p: nat)
    requires Kids(procs, p, [], true)
    ensures Kids(procs, p, [], false)
  {}

  /** The links after one round of the loop in do_exit: the youngest child of x has moved to init. */
  function Moved(procs: map<nat, Proc>, x: nat): (r: map<nat, Proc>)
    requires HandOverOk(procs, x)
    ensures r.Keys == procs.Keys && forall p | p in procs :: r[p].SameLife(procs[p])
  {
    var c := procs[x].cptr.value;
    Adopt(procs[x := procs[x].(cptr := procs[c].optr)], INIT, c)
  }

  /** One round of the loop: init is woken if the child that moved has exited and init waits for a child. */
  function HandOver(procs: map<nat, Proc>, x: nat): (r: map<nat, Proc>)
    requires HandOverOk(procs, x)
    ensures r.Keys == procs.Keys
    ensures forall p | p in procs && p != INIT :: r[p].SameLife(procs[p])
    ensures r[INIT].SameLife(if procs[procs[x].cptr.value].state == Zombie && procs[INIT].wait.ForChild?
                             then procs[INIT].(state := Runnable, wait := NoWait) else procs[INIT])
  {
    if procs[procs[x].cptr.value].state == Zombie && procs[INIT].wait.ForChild? then Woken(Moved(procs, x), INIT)
    else Moved(procs, x)
  }

  function MoveKid(kids: map<nat, seq<nat>>, x: nat): (r: map<nat, seq<nat>>)
    requires x in kids && INIT in kids && kids[x] != [] && x != INIT
    ensures r.Keys == kids.Keys && r[x] == kids[x][1..] && r[INIT] == [kids[x][0]] + kids[INIT]
    ensures forall p | p in kids && p != x && p != INIT :: r[p] == kids[p]
  {
    kids[x := kids[x][1..]][INIT := [kids[x][0]] + kids[INIT]]
  }

  predicate HandOverOk(procs: map<nat, Proc>, x: nat) {
    && x in procs && INIT in procs && x != INIT && procs[x].cptr.Some?
    && var c := procs[x].cptr.value;
    && c in procs && c != INIT && c != x && (procs[INIT].cptr.Some? ==> procs[INIT].cptr.value in procs)
    && procs[INIT].cptr != Some(INIT) && procs[INIT].cptr != Some(c)
  }

  lemma HandOverForest(procs: map<nat, Proc>, kids: map<nat, seq<nat>>, x: nat)
    requires Forest(procs, kids, Some(x), None) && x in procs && x > INIT && kids[x] != []
    ensures HandOverOk(procs, x) && procs[x].cptr.value == kids[x][0]
    ensures Forest(HandOver(procs, x), MoveKid(kids, x), Some(x), None)
  {
    hide Kids, Rooted, Moved;
    MovedForest(procs, kids, x);
    hide Forest;
    if procs[kids[x][0]].state == Zombie && procs[INIT].wait.ForChild? {
      SameLinksForest(Moved(procs, x), HandOver(procs, x), MoveKid(kids, x), Some(x), None);
    }
  }

  lemma MovedForest(procs: map<nat, Proc>, kids: map<nat, seq<nat>>, x: nat)
    requires Forest(procs, kids, Some(x), None) && x in procs && x > INIT && kids[x] != []
    ensures HandOverOk(procs, x) && procs[x].cptr.value == kids[x][0]
    ensures Forest(Moved(procs, x), MoveKid(kids, x), Some(x), None)
  {
    hide Kids, Rooted, Adopt;
    PopForest(procs, kids, x);
    HeadFacts(procs, kids, Some(x), None, INIT);
    var c := kids[x][0];
    OneParent(procs, kids, Some(x), None, x, c);
    if procs[INIT].cptr == Some(c) {
      OneParent(procs, kids, Some(x), None, INIT, c);
    }
    hide Forest;
    AdoptForest(procs[x := procs[x].(cptr := procs[c].optr)], kids[x := kids[x][1..]], Some(x), INIT, c);
  }

  /** Everybody but the dying process x is still in order. */
  ghost predicate LivesBut(procs: map<nat, Proc>, kids: map<nat, seq<nat>>, x: nat)
    requires procs.Keys == kids.Keys
  {
    forall p | p in procs && p != x :: LifeOk(procs, kids, p)
  }

  lemma HandOverLives(procs: map<nat, Proc>, kids: map<nat, seq<nat>>, x: nat)
    requires Forest(procs, kids, Some(x), None) && HandOverOk(procs, x) && x > INIT && kids[x] != []
    requires kids[x][0] == procs[x].cptr.value
    requires LivesBut(procs, kids, x)
    ensures LivesBut(HandOver(procs, x), MoveKid(kids, x), x)
  {
    hide Kids, Rooted, HandOver, MoveKid;
    var procs1, kids1 := HandOver(procs, x), MoveKid(kids, x);
    forall p | p in procs1 && p != x ensures LifeOk(procs1, kids1, p) {
      assert LifeOk(procs, kids, p);
      if p != INIT && p != IDLE {
        forall y | y in kids[p] && y in procs ensures y != INIT {
          OneParent(procs, kids, Some(x), None, p, y);
          OneParent(procs, kids, Some(x), None, IDLE, INIT);
        }
        LifeFrame(procs, kids, procs1, kids1, p);
      }
    }
  }

  /** do_exit up to the loop: x is a zombie, and its parent, if it was waiting for a child, is awake. */
  function Die(procs: map<nat, Proc>, x: nat): (r: map<nat, Proc>)
    requires x in procs && procs[x].parent in procs && procs[x].parent != x
    ensures r.Keys == procs.Keys && r[x] == procs[x].(state := Zombie)
    ensures forall p | p in procs && p != x && (p != procs[x].parent || !procs[p].wait.ForChild?) :: r[p] == procs[p]
    ensures procs[procs[x].parent].wait.ForChild? ==>
              r[procs[x].parent] == procs[procs[x].parent].(state := Runnable, wait := NoWait)
  {
    var a := procs[x := procs[x].(state := Zombie)];
    if a[a[x].parent].wait.ForChild? then Woken(a, a[x].parent) else a
  }

  lemma DieLives(procs: map<nat, Proc>, kids: map<nat, seq<nat>>, x: nat)
    requires Forest(procs, kids, None, None) && Lives(procs, kids) && x in procs && x > INIT
    requires procs[x].state == Runnable
    ensures procs[x].parent in procs && procs[x].parent != x && procs[procs[x].parent].state != Zombie
    ensures Forest(Die(procs, x), kids, Some(x), None) && LivesBut(Die(procs, x), kids, x)
  {
    hide Kids;
    assert Rooted(procs, kids, x);
    var pa := procs[x].parent;
    assert LifeOk(procs, kids, pa);
    hide Rooted;
    var procs1 := Die(procs, x);
    CutForest(procs, kids, x);
    SameLinksForest(procs, procs1, kids, Some(x), None);
    hide Die;
    forall p | p in procs && p != x ensures LifeOk(procs1, kids, p) {
      assert LifeOk(procs, kids, p);
      DieLife(procs, kids, x, p);
    }
  }

  lemma DieLife(procs: map<nat, Proc>, kids: map<nat, seq<nat>>, x: nat, p: nat)
    requires Forest(procs, kids, None, None) && x in procs && x > INIT && p in procs && p != x && LifeOk(procs, kids, p)
    requires procs[x].parent in procs && procs[x].parent != x && procs[procs[x].parent].state != Zombie
    ensures LifeOk(Die(procs, x), kids, p)
  {
    hide Kids, Die, Rooted;
    if p != procs[x].parent {
      assert x !in kids[p] by {
        if x in kids[p] {
          OneParent(procs, kids, None, None, p, x);
        }
      }
    }
  }

  function AddKid(kids: map<nat, seq<nat>>, p: nat, c: nat): (r: map<nat, seq<nat>>)
    requires p in kids && c !in kids
    ensures r.Keys == kids.Keys + {c} && r[c] == [] && r[p] == [c] + kids[p]
    ensures forall q | q in kids && q != p :: r[q] == kids[q]
  {
    kids[c := []][p := [c] + kids[p]]
  }

  function DropKid(kids: map<nat, seq<nat>>, p: nat, k: nat): (r: map<nat, seq<nat>>)
    requires p in kids && k < |kids[p]| && kids[p][k] != p
    ensures r.Keys == kids.Keys - {kids[p][k]} && r[p] == Removed(kids[p], k)
    ensures forall q | q in r && q != p :: r[q] == kids[q]
  {
    kids[p := Removed(kids[p], k)] - {kids[p][k]}
  }

  predicate Attachable(procs: map<nat, Proc>, p: nat) {
    p in procs && (procs[p].cptr.Some? ==> procs[p].cptr.value in procs) && procs[p].cptr != Some(p)
  }

  /** do_fork on the tree: process p gets a new, runnable child c. */
  function Forked(procs: map<nat, Proc>, p: nat, c: nat, pid: nat): (r: map<nat, Proc>)
    requires Attachable(procs, p) && c !in procs
    ensures r.Keys == procs.Keys + {c} && r[c].SameLife(Proc(pid, Runnable, NoWait, false, p, None, None, None))
    ensures r[c].parent == p
    ensures forall x | x in procs :: r[x].SameLife(procs[x]) && r[x].parent == procs[x].parent
  {
    Adopt(procs[c := Proc(pid, Runnable, NoWait, false, p, None, None, None)], p, c)
  }

  lemma ForkedForest(procs: map<nat, Proc>, kids: map<nat, seq<nat>>, p: nat, c: nat, pid: nat)
    requires Forest(procs, kids, None, None) && p in procs && p != IDLE && c !in procs && c > p && c > INIT
    ensures Attachable(procs, p) && Forest(Forked(procs, p, c, pid), AddKid(kids, p, c), None, None)
  {
    hide Kids, Rooted, Adopt;
    var proc := Proc(pid, Runnable, NoWait, false, p, None, None, None);
    HeadFacts(procs, kids, None, None, p);
    hide Forest;
    AddOrphan(procs, kids, c, proc);
    AdoptForest(procs[c := proc], kids[c := []], None, p, c);
    assert kids[c := []][p] == kids[p];
  }

  lemma ForkedWorld(procs: map<nat, Proc>, kids: map<nat, seq<nat>>, p: nat, c: nat, pid: nat)
    requires Forest(procs, kids, None, None) && Lives(procs, kids) && p in procs && p != IDLE
    requires procs[p].state == Runnable
    requires c !in procs && c > p && c > INIT && forall x | x in procs :: procs[x].pid != pid
    ensures Attachable(procs, p)
    ensures Forest(Forked(procs, p, c, pid), AddKid(kids, p, c), None, None)
    ensures Lives(Forked(procs, p, c, pid), AddKid(kids, p, c))
  {
    hide Kids, Rooted, Forked, AddKid, LifeOk, Attachable;
    ForkedForest(procs, kids, p, c, pid);
    var procs1, kids1 := Forked(procs, p, c, pid), AddKid(kids, p, c);
    forall q | q in procs1 ensures LifeOk(procs1, kids1, q) {
      if q in procs {
        assert LifeOk(procs, kids, q);
      }
      ForkedLife(procs, kids, p, c, pid, q);
    }
  }

  lemma ForkedLife(procs: map<nat, Proc>, kids: map<nat, seq<nat>>, p: nat, c: nat, pid: nat, q: nat)
    requires Forest(procs, kids, None, None) && p in procs && c !in procs && procs[p].state == Runnable
    requires Attachable(procs, p) && ((q in procs && LifeOk(procs, kids, q)) || q == c)
    ensures LifeOk(Forked(procs, p, c, pid), AddKid(kids, p, c), q)
  {
    hide Kids, Rooted, Forked, AddKid;
    var procs1, kids1 := Forked(procs, p, c, pid), AddKid(kids, p, c);
    if q != c && q != p {
      LifeFrame(procs, kids, procs1, kids1, q);
    }
  }

  /** do_wait reaping child k of p. */
  function Reaped(procs: map<nat, Proc>, c: nat): (r: map<nat, Proc>)
    requires Linkable(procs, c)
    ensures r.Keys == procs.Keys - {c} && forall x | x in r :: r[x].SameLife(procs[x]) && r[x].parent == procs[x].parent
  {
    Unlink(procs, c) - {c}
  }

  lemma ReapedWorld(procs: map<nat, Proc>, kids: map<nat, seq<nat>>, p: nat, k: nat)
    requires Forest(procs, kids, None, None) && Lives(procs, kids) && p in procs && p != IDLE
    requires procs[p].state == Runnable
    requires k < |kids[p]| && kids[p][k] in procs && procs[kids[p][k]].state == Zombie
    ensures Linkable(procs, kids[p][k]) && kids[p][k] != p && kids[p][k] > INIT
    ensures Forest(Reaped(procs, kids[p][k]), DropKid(kids, p, k), None, None)
    ensures Lives(Reaped(procs, kids[p][k]), DropKid(kids, p, k))
  {
    hide Kids, Rooted, Unlink, LifeOk, Removed;
    var c := kids[p][k];
    assert LifeOk(procs, kids, c);
    ZombieFacts(procs, kids, c);
    OneParent(procs, kids, None, None, p, c);
    UnlinkForest(procs, kids, p, k);
    DeleteForest(Unlink(procs, c), kids[p := Removed(kids[p], k)], c);
    var procs1, kids1 := Reaped(procs, c), DropKid(kids, p, k);
    hide Forest, Reaped, DropKid;
    forall q | q in procs1 ensures LifeOk(procs1, kids1, q) {
      assert LifeOk(procs, kids, q);
      ReapedLife(procs, kids, p, k, q);
    }
  }

  lemma ZombieFacts(procs: map<nat, Proc>, kids: map<nat, seq<nat>>, c: nat)
    requires procs.Keys == kids.Keys && c in procs && LifeOk(procs, kids, c) && procs[c].state == Zombie
    ensures kids[c] == [] && c > INIT
  {}

  lemma ReapedLife(procs: map<nat, Proc>, kids: map<nat, seq<nat>>, p: nat, k: nat, q: nat)
    requires Forest(procs, kids, None, None) && p in procs && procs[p].state == Runnable && k < |kids[p]|
    requires Linkable(procs, kids[p][k]) && kids[p][k] != p && q in procs && q != kids[p][k] && LifeOk(procs, kids, q)
    ensures LifeOk(Reaped(procs, kids[p][k]), DropKid(kids, p, k), q)
  {
    hide Kids, Rooted, Reaped, DropKid;
    var c := kids[p][k];
    var procs1, kids1 := Reaped(procs, c), DropKid(kids, p, k);
    if q != p {
      forall y | y in kids[q] && y in procs ensures y != c {
        OneParent(procs, kids, None, None, q, y);
        OneParent(procs, kids, None, None, p, c);
      }
      LifeFrame(procs, kids, procs1, kids1, q);
    }
  }

  function Reverse(s: seq<nat>): (r: seq<nat>)
    ensures |r| == |s|
  {
    if s == [] then [] else [s[|s| - 1]] + Reverse(s[..|s| - 1])
  }

  /** One of those processes has exited. */
  predicate SomeZombie(procs: map<nat, Proc>, among: seq<nat>) {
    exists i | 0 <= i < |among| :: among[i] in procs && procs[among[i]].state == Zombie
  }

  /** A process that waits for a child has been woken if `up`; any other is as it was. */
  function Roused(p: Proc, up: bool): Proc {
    if up && p.wait.ForChild? then p.(state := Runnable, wait := NoWait) else p
  }

  /** do_exit of x after n of its children have moved to init; procs0 and kids0 are from before the call. */
  ghost predicate Handing(procs0: map<nat, Proc>, procs: map<nat, Proc>,
                          kids0: map<nat, seq<nat>>, kids: map<nat, seq<nat>>, x: nat, n: nat)
    requires x in procs0 && x in kids0 && INIT in procs0 && INIT in kids0 && procs0[x].parent in procs0
    requires procs0[x].parent != x
  {
    && procs.Keys == procs0.Keys == kids0.Keys == kids.Keys
    && Forest(procs, kids, Some(x), None) && LivesBut(procs, kids, x)
    && n <= |kids0[x]| && kids[x] == kids0[x][n..] && kids[INIT] == Reverse(kids0[x][..n]) + kids0[INIT]
    && (forall p | p in procs && p != x && p != INIT :: kids[p] == kids0[p] && procs[p].SameLife(Die(procs0, x)[p]))
    && procs[x].SameLife(procs0[x].(state := Zombie))
    && procs[INIT].SameLife(Roused(Die(procs0, x)[INIT], SomeZombie(Die(procs0, x), kids0[x][..n])))
  }

  lemma HandingStart(procs: map<nat, Proc>, kids: map<nat, seq<nat>>, x: nat)
    requires Forest(procs, kids, None, None) && Lives(procs, kids) && x in procs && x > INIT
    requires procs[x].state == Runnable
    ensures procs[x].parent in procs && procs[x].parent != x && Handing(procs, Die(procs, x), kids, kids, x, 0)
  {
    hide Kids, Rooted, LifeOk, Die;
    DieLives(procs, kids, x);
    assert kids[x][0..] == kids[x] && kids[x][..0] == [] && [] + kids[INIT] == kids[INIT];
  }

  lemma HandingStep(procs0: map<nat, Proc>, procs: map<nat, Proc>, kids0: map<nat, seq<nat>>, kids: map<nat, seq<nat>>,
                    x: nat, n: nat)
    requires x in procs0 && x in kids0 && INIT in procs0 && INIT in kids0 && procs0[x].parent in procs0
    requires procs0[x].parent != x
    requires Handing(procs0, procs, kids0, kids, x, n) && x > INIT && procs[x].cptr.Some?
    ensures HandOverOk(procs, x) && x in kids && INIT in kids && kids[x] != [] && n < |kids0[x]|
    ensures Handing(procs0, HandOver(procs, x), kids0, MoveKid(kids, x), x, n + 1)
  {
    hide Forest, LivesBut, Die, HandOver, MoveKid, Reverse;
    HeadFacts(procs, kids, Some(x), None, x);
    HandOverForest(procs, kids, x);
    HandOverLives(procs, kids, x);
    ReverseStep(kids0[x], kids[x], n, kids0[INIT]);
    OneMore(Die(procs0, x), kids0[x], n);
  }

  lemma OneMore(procs: map<nat, Proc>, all: seq<nat>, n: nat)
    requires n < |all| && all[n] in procs
    ensures SomeZombie(procs, all[..n + 1]) <==> SomeZombie(procs, all[..n]) || procs[all[n]].state == Zombie
  {
    assert all[..n + 1][n] == all[n];
    assert forall i | 0 <= i < n :: all[..n + 1][i] == all[..n][i];
  }

  lemma ReverseStep(all: seq<nat>, rest: seq<nat>, n: nat, old_: seq<nat>)
    requires n < |all| && rest == all[n..]
    ensures rest[1..] == all[n + 1..] && [rest[0]] + (Reverse(all[..n]) + old_) == Reverse(all[..n + 1]) + old_
  {
    assert all[..n + 1][..n] == all[..n];
  }

  lemma HandingPids(procs0: map<nat, Proc>, procs: map<nat, Proc>, kids0: map<nat, seq<nat>>, kids: map<nat, seq<nat>>,
                    x: nat, n: nat)
    requires x in procs0 && x in kids0 && INIT in procs0 && INIT in kids0 && procs0[x].parent in procs0
    requires procs0[x].parent != x
    requires Handing(procs0, procs, kids0, kids, x, n)
    ensures forall p | p in procs :: procs[p].pid == procs0[p].pid
  {
    hide Forest, LivesBut, Die;
    forall p | p in procs ensures procs[p].pid == procs0[p].pid {
      assert Die(procs0, x)[p].pid == procs0[p].pid;
    }
  }

  /** The exit of x wakes p: its parent, or init when a child of x has exited. */
  predicate Rouses(procs: map<nat, Proc>, kids: map<nat, seq<nat>>, x: nat, p: nat)
    requires x in procs && x in kids
  {
    p == procs[x].parent || (p == INIT && SomeZombie(procs, kids[x]))
  }

  /** The children of x are neither x nor its parent, so those that have exited are the same after its death. */
  lemma DieZombies(procs: map<nat, Proc>, kids: map<nat, seq<nat>>, x: nat)
    requires Forest(procs, kids, None, None) && x in procs && x > INIT
    ensures procs[x].parent in procs && procs[x].parent != x
    ensures SomeZombie(Die(procs, x), kids[x]) <==> SomeZombie(procs, kids[x])
  {
    hide Die;
    assert Rooted(procs, kids, x);
    forall i: nat | i < |kids[x]| ensures kids[x][i] in procs && Die(procs, x)[kids[x][i]] == procs[kids[x][i]] {
      assert ChildOk(procs, x, kids[x], false, i);
      assert Rooted(procs, kids, kids[x][i]);
    }
  }

  /** Whom the exit of x has woken, once all its children have moved. */
  lemma HandingLife(procs0: map<nat, Proc>, procs: map<nat, Proc>, kids0: map<nat, seq<nat>>, kids: map<nat, seq<nat>>,
                    x: nat, p: nat)
    requires Forest(procs0, kids0, None, None) && x in procs0 && x > INIT && procs0[x].parent in procs0
    requires procs0[x].parent != x && Handing(procs0, procs, kids0, kids, x, |kids0[x]|) && p in procs && p != x
    ensures procs[p].SameLife(Roused(procs0[p], Rouses(procs0, kids0, x, p)))
  {
    hide Kids, Rooted, Die, Reverse, SomeZombie;
    DieZombies(procs0, kids0, x);
    assert kids0[x][..|kids0[x]|] == kids0[x];
  }

  lemma HandingEnd(procs0: map<nat, Proc>, procs: map<nat, Proc>, kids0: map<nat, seq<nat>>, kids: map<nat, seq<nat>>,
                   x: nat, n: nat)
    requires x in procs0 && x in kids0 && INIT in procs0 && INIT in kids0 && procs0[x].parent in procs0
    requires procs0[x].parent != x
    requires Handing(procs0, procs, kids0, kids, x, n) && x > INIT && procs[x].cptr.None? && UniquePids(procs0)
    requires procs0[x].wait == NoWait
    ensures Forest(procs, kids, None, None) && Lives(procs, kids) && kids[x] == [] && n == |kids0[x]|
    ensures procs.Keys == procs0.Keys == kids.Keys && procs[x].SameLife(procs0[x].(state := Zombie))
    ensures kids[INIT] == Reverse(kids0[x]) + kids0[INIT]
    ensures !procs[procs0[x].parent].wait.ForChild? && procs[IDLE].pid == procs0[IDLE].pid
    ensures forall p | p in procs && p != x && p != INIT :: kids[p] == kids0[p]
  {
    hide Kids, Rooted, Die, Reverse, SomeZombie, LifeOk, UniquePids;
    assert Kids(procs, x, kids[x], true);
    NoHead(procs, x, kids[x], true);
    EmptiedForest(procs, kids, x);
    assert kids0[x][..n] == kids0[x];
    HandingPids(procs0, procs, kids0, kids, x, n);
    SamePids(procs0, procs);
    ZombieLife(procs, kids, x);
  }

  lemma ZombieLife(procs: map<nat, Proc>, kids: map<nat, seq<nat>>, x: nat)
    requires x in procs && procs.Keys == kids.Keys && procs[x].state == Zombie && procs[x].wait == NoWait
    requires kids[x] == [] && x > INIT
    ensures LifeOk(procs, kids, x)
  {}

  lemma NoHead(procs: map<nat, Proc>, p: nat, kids: seq<nat>, cut: bool)
    requires Kids(procs, p, kids, cut) && procs[p].cptr.None?
    ensures kids == []
  {}

  lemma NotWaiting(procs: map<nat, Proc>, kids: map<nat, seq<nat>>, p: nat)
    requires procs.Keys == kids.Keys && Lives(procs, kids) && p in procs && procs[p].state == Runnable
    ensures procs[p].wait == NoWait && UniquePids(procs)
  {
    assert LifeOk(procs, kids, p);
  }

  /** proc_list holds everybody but idle, which nr_process counts too. */
  ghost predicate ListOk(list: seq<nat>, everybody: set<nat>, count: nat) {
    Distinct(list) && (forall p: nat :: p in list <==> p in everybody && p != IDLE) && count == 1 + |list|
  }

  lemma ListAdded(list: seq<nat>, everybody: set<nat>, count: nat, c: nat)
    requires ListOk(list, everybody, count) && c !in everybody && c != IDLE
    ensures ListOk([c] + list, everybody + {c}, count + 1)
  {}

  lemma ListDropped(list: seq<nat>, everybody: set<nat>, count: nat, k: nat)
    requires ListOk(list, everybody, count) && k < |list|
    ensures ListOk(Removed(list, k), everybody - {list[k]}, count - 1)
  {
    RemovedMembers(list, k);
  }

  /** When init has no children left, only idle and init exist: the assertions at the end of init_main hold. */
  lemma InitAlone(procs: map<nat, Proc>, kids: map<nat, seq<nat>>, list: seq<nat>, count: nat)
    requires Forest(procs, kids, None, None) && ListOk(list, procs.Keys, count) && procs[INIT].cptr == None
    ensures procs.Keys == {IDLE, INIT} && count == 2 && list == [INIT] && procs[INIT].optr == None
    ensures procs[INIT].yptr == None
  {
    assert Kids(procs, INIT, kids[INIT], false) && Kids(procs, IDLE, kids[IDLE], false);
    assert ChildOk(procs, IDLE, kids[IDLE], false, 0);
    hide Kids, Rooted;
    NoHead(procs, INIT, kids[INIT], false);
    forall x | x in procs ensures x == IDLE || x == INIT {
      NoOther(procs, kids, x);
    }
    assert Elements(list) == {INIT};
    DistinctSize(list);
    assert list[0] in list;
  }

  lemma InList(list: seq<nat>, everybody: set<nat>, count: nat, c: nat)
    requires ListOk(list, everybody, count) && c in everybody && c != IDLE
    ensures c in list && count > 0
  {}

  lemma HeadOf(procs: map<nat, Proc>, p: nat, kids: seq<nat>)
    requires Kids(procs, p, kids, false)
    ensures procs[p].cptr == Nth(kids, 0)
  {}

  lemma NextSibling(procs: map<nat, Proc>, p: nat, kids: seq<nat>, k: nat)
    requires Kids(procs, p, kids, false) && k < |kids|
    ensures kids[k] in procs && procs[kids[k]].optr == Nth(kids, k + 1) && procs[kids[k]].parent == p
  {
    assert ChildOk(procs, p, kids, false, k);
  }

  lemma ReapedIdle(procs: map<nat, Proc>, kids: map<nat, seq<nat>>, c: nat)
    requires IDLE in procs && INIT in procs && Linkable(procs, c) && c > INIT
    ensures Reaped(procs, c)[IDLE].pid == procs[IDLE].pid && INIT in Reaped(procs, c)
  {
    hide Unlink;
  }

  lemma MyChild(procs: map<nat, Proc>, kids: map<nat, seq<nat>>, c: nat) returns (k: nat)
    requires Forest(procs, kids, None, None) && c in procs && c != IDLE
    ensures var p := procs[c].parent; p in procs && k < |kids[p]| && kids[p][k] == c
  {
    hide Kids;
    assert Rooted(procs, kids, c);
    k :| 0 <= k < |kids[procs[c].parent]| && kids[procs[c].parent][k] == c;
  }

  /** find_proc did not come up with a child: there is no child with that pid. */
  lemma NotMine(procs: map<nat, Proc>, kids: map<nat, seq<nat>>, p: nat, pid: nat, found: Option<nat>)
    requires Forest(procs, kids, None, None) && UniquePids(procs) && p in procs
    requires found.Some? ==> found.value in procs && procs[found.value].pid == pid && procs[found.value].parent != p
    requires found.None? ==> forall x | x in procs && x != IDLE :: procs[x].pid != pid
    ensures forall c | c in kids[p] :: c in procs && procs[c].pid != pid
  {
    hide Kids, Rooted;
    forall c | c in kids[p] ensures c in procs && procs[c].pid != pid {
      OneParent(procs, kids, None, None, p, c);
    }
  }

  lemma HeadIsSome(procs: map<nat, Proc>, kids: map<nat, seq<nat>>, p: nat)
    requires Forest(procs, kids, None, None) && p in procs
    ensures procs[p].cptr.Some? <==> kids[p] != []
  {
    assert Kids(procs, p, kids[p], false);
  }

  /** A process that is no zombie changes state and wait_state without becoming one. */
  function Changed(procs: map<nat, Proc>, p: nat, state: Run, wait: Wait, exiting: bool): (r: map<nat, Proc>)
    requires p in procs
    ensures r.Keys == procs.Keys && (forall x | x in procs && x != p :: r[x] == procs[x])
    ensures r[p].state == state && r[p].wait == wait && r[p].exiting == exiting && r[p].pid == procs[p].pid
    ensures SameLinks(r[p], procs[p]) && r[p].cptr == procs[p].cptr
  {
    procs[p := procs[p].(state := state, wait := wait, exiting := exiting)]
  }

  lemma ChangedAwaits(procs: map<nat, Proc>, p: nat, state: Run, wait: Wait, exiting: bool, kids: seq<nat>, pid: nat)
    requires p in procs && state != Zombie && Awaits(procs, kids, pid)
    ensures Awaits(Changed(procs, p, state, wait, exiting), kids, pid)
  {
    var r := Changed(procs, p, state, wait, exiting);
    if pid != 0 {
      var c :| c in kids && c in procs && procs[c].pid == pid && procs[c].state != Zombie;
      assert c in r && r[c].pid == pid && r[c].state != Zombie;
    }
  }

  lemma ChangedWorld(procs: map<nat, Proc>, kids: map<nat, seq<nat>>, p: nat, state: Run, wait: Wait, exiting: bool)
    requires Forest(procs, kids, None, None) && Lives(procs, kids) && p in procs && state != Zombie
    requires (state == Runnable ==> wait == NoWait) && (wait.ForChild? ==> Awaits(procs, kids[p], wait.pid))
    ensures Forest(Changed(procs, p, state, wait, exiting), kids, None, None)
    ensures Lives(Changed(procs, p, state, wait, exiting), kids)
  {
    hide Kids, Rooted, Awaits, UniquePids;
    var r := Changed(procs, p, state, wait, exiting);
    SameLinksForest(procs, r, kids, None, None);
    forall q | q in procs ensures LifeOk(r, kids, q) {
      assert LifeOk(procs, kids, q);
      if r[q].wait.ForChild? {
        ChangedAwaits(procs, p, state, wait, exiting, kids[q], r[q].wait.pid);
      }
    }
    assert UniquePids(r) by { SamePids(procs, r); }
  }

  lemma SamePids(procs: map<nat, Proc>, r: map<nat, Proc>)
    requires UniquePids(procs) && r.Keys == procs.Keys && forall p | p in procs :: r[p].pid == procs[p].pid
    ensures UniquePids(r)
  {}

  lemma PidsDiffer(procs: map<nat, Proc>, kids: map<nat, seq<nat>>)
    requires procs.Keys == kids.Keys && Lives(procs, kids)
    ensures UniquePids(procs)
  {}

  lemma ZombiesDoNotWait(procs: map<nat, Proc>, kids: map<nat, seq<nat>>, p: nat)
    requires procs.Keys == kids.Keys && Lives(procs, kids) && p in procs
    ensures procs[p].state != Sleeping ==> procs[p].wait == NoWait
    ensures procs[p].wait.ForChild? ==> Awaits(procs, kids[p], procs[p].wait.pid)
  {
    assert LifeOk(procs, kids, p);
  }

  lemma ExitingWorld(procs: map<nat, Proc>, kids: map<nat, seq<nat>>, p: nat)
    requires Forest(procs, kids, None, None) && Lives(procs, kids) && p in procs
    ensures var r := Changed(procs, p, procs[p].state, procs[p].wait, true);
            Forest(r, kids, None, None) && Lives(r, kids)
  {
    hide Kids, Rooted, UniquePids;
    var r := Changed(procs, p, procs[p].state, procs[p].wait, true);
    SameLinksForest(procs, r, kids, None, None);
    forall q | q in procs ensures LifeOk(r, kids, q) {
      assert LifeOk(procs, kids, q);
    }
    assert UniquePids(r) by { SamePids(procs, r); }
  }

  /** p is marked and, if it slept interruptibly, awake. */
  predicate Killed(procs: map<nat, Proc>, r: map<nat, Proc>, p: nat)
    requires p in procs
  {
    var wake := procs[p].wait.ForChild? || procs[p].wait == ForOther(true);
    && !procs[p].exiting
    && r == Changed(procs, p, if wake then Runnable else procs[p].state, if wake then NoWait else procs[p].wait, true)
  }

  /** Nobody sleeps in do_wait while a child it waits for has exited. */
  lemma NoMissedExit(procs: map<nat, Proc>, kids: map<nat, seq<nat>>, p: nat, c: nat)
    requires Forest(procs, kids, None, None) && Lives(procs, kids) && p in procs && c in procs && c != IDLE
    requires procs[c].parent == p
    requires procs[p].wait.ForChild? && (procs[p].wait.pid == 0 || procs[c].pid == procs[p].wait.pid)
    ensures procs[c].state != Zombie
  {
    hide Kids;
    assert Rooted(procs, kids, c);
    assert LifeOk(procs, kids, p);
  }

  datatype WaitResult = Reaping(child: nat) | Slept | BadProc

  class Kernel {
    /** Every process structure, by its serial number */
    var procs: map<nat, Proc>
    /** The order of proc_list */
    var procList: seq<nat>
    var nrProcess: nat
    var current: nat
    var serial: nat
    ghost var kids: map<nat, seq<nat>>

    ghost predicate Valid()
      reads this
    {
      && procs.Keys == kids.Keys && Forest(procs, kids, None, None) && Lives(procs, kids)
      && ListOk(procList, procs.Keys, nrProcess)
      && IDLE in procs && INIT in procs && current in procs && serial > INIT && (forall p | p in procs :: p < serial)
      && procs[IDLE].pid == 0
    }

    /** A process other than idle is running */
    ghost predicate Running()
      reads this
    {
      current in procs && current != IDLE && procs[current].state == Runnable
    }

    /** proc_init: idle and its child init */
    constructor ()
      ensures Valid() && procs.Keys == {IDLE, INIT} && kids[INIT] == [] && current == IDLE && nrProcess == 2
      ensures procs[INIT].pid == 1
    {
      procs := map[IDLE := Proc(0, Runnable, NoWait, false, IDLE, Some(INIT), None, None),
                   INIT := Proc(1, Runnable, NoWait, false, IDLE, None, None, None)];
      kids := map[IDLE := [INIT], INIT := []];
      procList, nrProcess, current, serial := [INIT], 2, IDLE, 2;
    }

    /** set_links */
    method SetLinks(c: nat)
      requires c in procs && Attachable(procs, procs[c].parent) && procs[c].parent != c
      requires procs[procs[c].parent].cptr != Some(c)
      modifies this`procs, this`procList, this`nrProcess
      ensures procs == Adopt(old(procs), old(procs[c].parent), c) && procList == [c] + old(procList)
      ensures nrProcess == old(nrProcess) + 1
    {
      procList := [c] + procList;
      var p := procs[c].parent;
      procs := procs[c := procs[c].(yptr := None)];
      procs := procs[c := procs[c].(optr := procs[p].cptr)];
      if procs[c].optr.Some? {
        var o := procs[c].optr.value;
        procs := procs[o := procs[o].(yptr := Some(c))];
      }
      procs := procs[p := procs[p].(cptr := Some(c))];
      nrProcess := nrProcess + 1;
    }

    /** remove_links, c being entry k of proc_list */
    method RemoveLinks(c: nat, k: nat)
      requires Linkable(procs, c) && k < |procList| && procList[k] == c && nrProcess > 0
      modifies this`procs, this`procList, this`nrProcess
      ensures procs == Unlink(old(procs), c) && procList == Removed(old(procList), k) && nrProcess == old(nrProcess) - 1
    {
      procList := Removed(procList, k);
      var o, y, p := procs[c].optr, procs[c].yptr, procs[c].parent;
      if o.Some? {
        procs := procs[o.value := procs[o.value].(yptr := y)];
      }
      if y.Some? {
        procs := procs[y.value := procs[y.value].(optr := o)];
      } else {
        procs := procs[p := procs[p].(cptr := o)];
      }
      nrProcess := nrProcess - 1;
    }

    /** do_fork making the child's structure and linking it */
    method NewChild(c: nat, pid: nat)
      requires Attachable(procs, current) && c !in procs
      modifies this`procs, this`procList, this`nrProcess
      ensures procs == Forked(old(procs), current, c, pid) && procList == [c] + old(procList)
      ensures nrProcess == old(nrProcess) + 1
    {
      hide Adopt;
      procs := procs[c := Proc(pid, Runnable, NoWait, false, current, None, None, None)];
      SetLinks(c);
    }

    /**
      do_fork by the current process; pid is what get_pid returned, and room says whether there was memory for the
      process structure, its kernel stack, its address space and its file table.
      */
    method Fork(pid: nat, room: bool) returns (child: Option<nat>)
      requires Valid() && Running() && forall x | x in procs :: procs[x].pid != pid
      modifies this
      ensures Valid() && current == old(current)
      ensures child.None? <==> old(nrProcess) >= MAX_PROCESS || !room
      ensures child.None? ==> procs == old(procs) && kids == old(kids) && procList == old(procList)
      ensures child.Some? ==> child.value !in old(procs) && procs.Keys == old(procs).Keys + {child.value}
      ensures child.Some? ==> procs[child.value].pid == pid && procs[child.value].state == Runnable
      ensures child.Some? ==> procs[child.value].wait == NoWait && !procs[child.value].exiting
      ensures child.Some? ==> procs[child.value].parent == current && nrProcess == old(nrProcess) + 1
      ensures child.Some? ==>
                kids == AddKid(old(kids), current, child.value) && procList == [child.value] + old(procList)
      ensures child.Some? ==> forall x | x in old(procs) ::
                procs[x].SameLife(old(procs)[x]) && procs[x].parent == old(procs)[x].parent
    {
      hide Forest, Lives, Forked, ListOk, AddKid, Attachable;
      if nrProcess >= MAX_PROCESS || !room {
        return None;
      }
      var c := serial;
      assert procs[current].wait == NoWait by { NotWaiting(procs, kids, current); }
      ForkedWorld(procs, kids, current, c, pid);
      ListAdded(procList, procs.Keys, nrProcess, c);
      NewChild(c, pid);
      kids, serial := AddKid(kids, current, c), serial + 1;
      child := Some(c);
    }

    /**
      do_exit by the current process, up to the call of schedule: it becomes a childless zombie, its children move to
      init, and whoever waited for one of those that have exited is awake.
      */
    method Exit()
      requires Valid() && Running() && current != INIT
      modifies this`procs, this`kids
      ensures Valid() && procs.Keys == old(procs).Keys && kids[current] == []
      ensures procs[current].SameLife(old(procs[current]).(state := Zombie))
      ensures kids[INIT] == Reverse(old(kids[current])) + old(kids[INIT])
      ensures forall p | p in procs && p != current && p != INIT :: kids[p] == old(kids[p])
      ensures forall p | p in procs && p != current ::
                procs[p].SameLife(Roused(old(procs[p]), Rouses(old(procs), old(kids), current, p)))
      ensures !procs[old(procs[current].parent)].wait.ForChild?
      ensures forall p | p in procs :: procs[p].pid == old(procs[p]).pid
    {
      hide Forest, Lives, Handing, Reverse, ListOk, UniquePids;
      NotWaiting(procs, kids, current);
      ghost var kids0, procs0, n := kids, procs, 0;
      BecomeZombie();
      while procs[current].cptr.Some?
        invariant Dying(procs0, kids0, n)
        decreases |kids0[current]| - n
      {
        HandOne(procs0, kids0, n);
        n := n + 1;
      }
      HandingPids(procs0, procs, kids0, kids, current, n);
      HandingEnd(procs0, procs, kids0, kids, current, n);
      forall p | p in procs && p != current
        ensures procs[p].SameLife(Roused(procs0[p], Rouses(procs0, kids0, current, p)))
      {
        HandingLife(procs0, procs, kids0, kids, current, p);
      }
    }

    /** do_exit of the current process, with n children moved */
    ghost predicate Dying(procs0: map<nat, Proc>, kids0: map<nat, seq<nat>>, n: nat)
      reads this
    {
      && current in procs0 && current > INIT && INIT in procs0 && procs0[current].parent in procs0
      && procs0[current].parent != current
      && procs.Keys == procs0.Keys == kids.Keys == kids0.Keys && n <= |kids0[current]|
      && Handing(procs0, procs, kids0, kids, current, n)
    }

    /** do_exit up to its loop */
    method BecomeZombie()
      requires Valid() && Running() && current != INIT
      modifies this`procs
      ensures Dying(old(procs), kids, 0)
    {
      hide Forest, Lives, Handing, Die, ListOk;
      HandingStart(procs, kids, current);
      procs := Die(procs, current);
    }

    /** The body of the loop in do_exit */
    method HandOne(ghost procs0: map<nat, Proc>, ghost kids0: map<nat, seq<nat>>, ghost n: nat)
      requires Dying(procs0, kids0, n) && procs[current].cptr.Some?
      modifies this`procs, this`kids
      ensures Dying(procs0, kids0, n + 1)
    {
      hide Handing, HandOver, MoveKid, HandOverOk;
      HandingStep(procs0, procs, kids0, kids, current, n);
      procs := HandOver(procs, current);
      kids := MoveKid(kids, current);
    }

    /** find_proc */
    method FindProc(pid: nat) returns (r: Option<nat>)
      requires Valid()
      ensures match r
        case Some(p) => p in procs && p != IDLE && procs[p].pid == pid
        case None => forall p | p in procs && p != IDLE :: procs[p].pid != pid
    {
      if p :| p in procs && p != IDLE && procs[p].pid == pid {
        return Some(p);
      }
      return None;
    }

    /** The scan of do_wait(0) over the children: the first zombie, if there is one */
    method FirstZombie() returns (r: Option<nat>, ghost k: nat)
      requires Valid()
      ensures k <= |kids[current]|
      ensures forall j | 0 <= j < k :: kids[current][j] in procs && procs[kids[current][j]].state != Zombie
      ensures match r
        case Some(c) => k < |kids[current]| && c == kids[current][k] && c in procs && procs[c].state == Zombie
        case None => k == |kids[current]|
    {
      hide Lives, ListOk, Kids, Rooted;
      assert Kids(procs, current, kids[current], false);
      HeadOf(procs, current, kids[current]);
      r, k := procs[current].cptr, 0;
      while r.Some?
        invariant k <= |kids[current]| && r == Nth(kids[current], k)
        invariant forall j | 0 <= j < k :: kids[current][j] in procs && procs[kids[current][j]].state != Zombie
        decreases |kids[current]| - k
      {
        assert Kids(procs, current, kids[current], false);
        NextSibling(procs, current, kids[current], k);
        if procs[r.value].state == Zombie {
          return;
        }
        r, k := procs[r.value].optr, k + 1;
      }
    }

    /** The end of do_wait: child k of the current process, a zombie, is unlinked and its structure freed */
    method Reap(c: nat, ghost k: nat)
      requires Valid() && Running() && k < |kids[current]| && c == kids[current][k] && c in procs
      requires procs[c].state == Zombie
      modifies this
      ensures Valid() && current == old(current) && c != current && kids == DropKid(old(kids), current, k)
      ensures Linkable(old(procs), c) && procs == Reaped(old(procs), c)
    {
      hide Forest, Lives, Reaped, ListOk, DropKid, Linkable;
      ReapedWorld(procs, kids, current, k);
      ghost var procs0 := procs;
      InList(procList, procs.Keys, nrProcess, c);
      var at := Position(c);
      ListDropped(procList, procs.Keys, nrProcess, at);
      RemoveAndFree(c, at);
      ReapedIdle(procs0, kids, c);
      kids := DropKid(kids, current, k);
    }

    /** Where c stands in proc_list, which its own link tells the source */
    method Position(c: nat) returns (k: nat)
      requires c in procList
      ensures k < |procList| && procList[k] == c
    {
      k := 0;
      while procList[k] != c
        invariant k < |procList| && c !in procList[..k]
        decreases |procList| - k
      {
        k := k + 1;
      }
    }

    method RemoveAndFree(c: nat, at: nat)
      requires Linkable(procs, c) && at < |procList| && procList[at] == c && nrProcess > 0
      modifies this`procs, this`procList, this`nrProcess
      ensures procs == Reaped(old(procs), c) && procList == Removed(old(procList), at)
      ensures nrProcess == old(nrProcess) - 1
    {
      hide Unlink;
      RemoveLinks(c, at);
      procs := procs - {c};
    }

    /** Some child of the current process is the one do_wait(pid) is about */
    ghost predicate HasKid(pid: nat)
      reads this
      requires current in kids
    {
      if pid == 0 then kids[current] != [] else exists c | c in kids[current] :: c in procs && procs[c].pid == pid
    }

    /** Exactly child c has left the children of p; with `first`, no zombie stood before it. */
    ghost predicate ReapsNth(procs0: map<nat, Proc>, kids0: map<nat, seq<nat>>, kids1: map<nat, seq<nat>>, p: nat,
                             c: nat, first: bool)
      requires p in kids0
    {
      exists k: nat ::
        && k < |kids0[p]| && kids0[p][k] == c != p && kids1 == DropKid(kids0, p, k)
        && (first ==> forall j | 0 <= j < k :: kids0[p][j] in procs0 && procs0[kids0[p][j]].state != Zombie)
    }

    /** do_wait by the current process, up to the point where it sleeps */
    method Wait(pid: nat) returns (r: WaitResult)
      requires Valid() && Running()
      modifies this
      ensures Valid() && current == old(current)
      ensures r.BadProc? <==> !old(HasKid(pid))
      ensures r.BadProc? ==> procs == old(procs) && kids == old(kids)
      ensures r.Slept? ==>
                && kids == old(kids)
                && procs == old(procs)[current := old(procs[current]).(state := Sleeping, wait := ForChild(pid))]
      ensures r.Reaping? ==>
                r.child in old(kids[current]) && Linkable(old(procs), r.child) && old(procs[r.child].state) == Zombie
      ensures r.Reaping? ==> (pid == 0 || old(procs[r.child].pid) == pid) && procs == Reaped(old(procs), r.child)
      ensures r.Reaping? ==> ReapsNth(old(procs), old(kids), kids, current, r.child, pid == 0)
    {
      hide Forest, Lives, ListOk, Reaped, DropKid, Linkable, UniquePids;
      NotWaiting(procs, kids, current);
      if pid != 0 {
        var p := FindProc(pid);
        if p.None? || procs[p.value].parent != current {
          NotMine(procs, kids, current, pid, p);
          return BadProc;
        }
        ghost var k := MyChild(procs, kids, p.value);
        assert kids[current][k] in kids[current];
        if procs[p.value].state == Zombie {
          Reap(p.value, k);
          return Reaping(p.value);
        }
      } else {
        var z, k := FirstZombie();
        if z.Some? {
          Reap(z.value, k);
          return Reaping(z.value);
        }
        HeadIsSome(procs, kids, current);
        if procs[current].cptr.None? {
          return BadProc;
        }
      }
      ChangedWorld(procs, kids, current, Sleeping, ForChild(pid), procs[current].exiting);
      procs := Changed(procs, current, Sleeping, ForChild(pid), procs[current].exiting);
      r := Slept;
    }

    /** do_kill: 0 stands for success, 1 for a process already exiting, 2 for an unknown pid */
    method Kill(pid: nat) returns (r: nat)
      requires Valid()
      modifies this`procs
      ensures Valid() && procs.Keys == old(procs).Keys && r <= 2
      ensures r == 2 <==> forall p | p in procs && p != IDLE :: procs[p].pid != pid
      ensures r == 1 <==> exists p | p in old(procs) && p != IDLE :: old(procs[p]).pid == pid && old(procs[p]).exiting
      ensures r == 0 <==>
                exists p | p in old(procs) && p != IDLE && old(procs[p]).pid == pid :: Killed(old(procs), procs, p)
      ensures r != 0 ==> procs == old(procs)
      ensures forall p | p in procs :: procs[p].pid == old(procs)[p].pid
    {
      hide Forest, Lives, ListOk, Awaits;
      PidsDiffer(procs, kids);
      var f := FindProc(pid);
      if f.None? {
        return 2;
      }
      var p := f.value;
      if procs[p].exiting {
        return 1;
      }
      ZombiesDoNotWait(procs, kids, p);
      if procs[p].state == Zombie {
        ExitingWorld(procs, kids, p);
        procs := Changed(procs, p, procs[p].state, procs[p].wait, true);
      } else if procs[p].wait.ForChild? || procs[p].wait == ForOther(true) {
        ChangedWorld(procs, kids, p, Runnable, NoWait, true);
        procs := Changed(procs, p, Runnable, NoWait, true);
      } else {
        ChangedWorld(procs, kids, p, procs[p].state, procs[p].wait, true);
        procs := Changed(procs, p, procs[p].state, procs[p].wait, true);
      }
      r := 0;
    }

    /** The current process blocks on something that is not a child: a semaphore, a timer, an empty buffer */
    method Block(interruptible: bool)
      requires Valid() && Running()
      modifies this`procs
      ensures Valid()
      ensures procs == Changed(old(procs), current, Sleeping, ForOther(interruptible), old(procs[current]).exiting)
    {
      hide Forest, Lives, ListOk;
      ChangedWorld(procs, kids, current, Sleeping, ForOther(interruptible), procs[current].exiting);
      procs := Changed(procs, current, Sleeping, ForOther(interruptible), procs[current].exiting);
    }

    /** wakeup_proc; its assertion that the process is no zombie is the precondition */
    method Wakeup(p: nat)
      requires Valid() && p in procs && procs[p].state != Zombie
      modifies this`procs
      ensures Valid() && procs == Changed(old(procs), p, Runnable, NoWait, old(procs[p]).exiting)
    {
      hide Forest, Lives, ListOk;
      ChangedWorld(procs, kids, p, Runnable, NoWait, procs[p].exiting);
      procs := Changed(procs, p, Runnable, NoWait, procs[p].exiting);
    }

    /** The context switch of proc_run */
    method Switch(next: nat)
      requires Valid() && next in procs && procs[next].state == Runnable
      modifies this`current
      ensures Valid() && current == next
    {
      current := next;
    }
  }
}
