/** The process tree and get_pid together: over every run the pid handed to do_fork is in range and nobody else's. */
module ProcessPids {
  import opened Counting
  import opened ProcessStates
  import opened ProcessTree
  import opened ProcessLife
  import opened Pids

  /** The pids of the processes on proc_list, in its order */
  function Live(list: seq<nat>, procs: map<nat, Proc>): (r: seq<nat>)
    requires forall i | 0 <= i < |list| :: list[i] in procs
    ensures |r| == |list| && forall i | 0 <= i < |r| :: r[i] == procs[list[i]].pid
  {
    seq(|list|, i requires 0 <= i < |list| => procs[list[i]].pid)
  }

  predicate Listed(list: seq<nat>, procs: map<nat, Proc>) {
    forall i | 0 <= i < |list| :: list[i] in procs
  }

  lemma ListedIf(list: seq<nat>, procs: map<nat, Proc>, count: nat)
    requires ListOk(list, procs.Keys, count)
    ensures Listed(list, procs) && count == 1 + |list| && forall p | p in procs && p != IDLE :: p in list
  {
    forall i | 0 <= i < |list| ensures list[i] in procs {
      assert list[i] in list;
    }
  }

  /** Nobody has a pid that nobody had before. */
  lemma FewerPids(list: seq<nat>, procs: map<nat, Proc>, list1: seq<nat>, procs1: map<nat, Proc>)
    requires Listed(list, procs) && Listed(list1, procs1)
    requires forall p | p in list1 :: p in list && p in procs && p in procs1 && procs1[p].pid == procs[p].pid
    ensures forall x | x in Live(list1, procs1) :: x in Live(list, procs)
  {
    forall x | x in Live(list1, procs1) ensures x in Live(list, procs) {
      var i :| 0 <= i < |list1| && Live(list1, procs1)[i] == x;
      assert list1[i] in list;
      var j :| 0 <= j < |list| && list[j] == list1[i];
      assert Live(list, procs)[j] == x;
    }
  }

  class System {
    const kernel: Kernel
    const pids: Allocator

    /** The kernel's own invariant, and get_pid's about the pids now in use */
    ghost predicate Valid()
      reads kernel, pids
    {
      && kernel.Valid() && Listed(kernel.procList, kernel.procs) && pids.Valid(Live(kernel.procList, kernel.procs))
      && forall p | p in kernel.procs && p != IDLE :: 1 <= kernel.procs[p].pid < MAX_PID
    }

    constructor ()
      ensures Valid() && fresh(kernel) && fresh(pids)
    {
      hide Forest, Lives, ListOk;
      kernel := new Kernel();
      pids := new Allocator();
      new;
      ListedIf(kernel.procList, kernel.procs, kernel.nrProcess);
    }

    /** do_fork with the pid from get_pid, which finds one because there are more pids than processes */
    method Fork(room: bool) returns (child: Option<nat>)
      requires Valid() && kernel.Running()
      modifies kernel, pids
      ensures Valid() && (child.None? <==> old(kernel.nrProcess) >= MAX_PROCESS || !room)
      ensures child.Some? ==> child.value in kernel.procs && child.value !in old(kernel.procs)
      ensures child.Some? ==> kernel.procs[child.value].state == Runnable && kernel.procs[child.value].wait == NoWait
      ensures child.Some? ==> kernel.procs[child.value].parent == kernel.current == old(kernel.current)
      ensures forall p | p in old(kernel.procs) ::
                p in kernel.procs && kernel.procs[p].SameLife(old(kernel.procs)[p])
      ensures child.Some? ==>
                forall p | p in old(kernel.procs) :: old(kernel.procs)[p].pid != kernel.procs[child.value].pid
    {
      hide Forest, Lives, ListOk, AddKid, Allocator.Valid, Ahead, Live, Pids.Next;
      if kernel.nrProcess >= MAX_PROCESS || !room {
        return None;
      }
      ghost var list, procs := kernel.procList, kernel.procs;
      ListedIf(list, procs, kernel.nrProcess);
      var live := Live(kernel.procList, kernel.procs);
      var pid := pids.GetPid(live);
      NewPid(list, procs, pid);
      child := kernel.Fork(pid, true);
      ListedIf(kernel.procList, kernel.procs, kernel.nrProcess);
      OnePidMore(list, procs, kernel.procs, child.value, pid);
      pids.Fewer(live + [pid], Live(kernel.procList, kernel.procs));
    }

    lemma NewPid(list: seq<nat>, procs: map<nat, Proc>, pid: nat)
      requires Listed(list, procs) && (forall p | p in procs && p != IDLE :: p in list) && IDLE in procs
      requires procs[IDLE].pid == 0
      requires pid !in Live(list, procs) && pid >= 1
      ensures forall p | p in procs :: procs[p].pid != pid
    {
      forall p | p in procs && p != IDLE ensures procs[p].pid != pid {
        var i :| 0 <= i < |list| && list[i] == p;
        assert Live(list, procs)[i] == procs[p].pid;
      }
    }

    lemma OnePidMore(list: seq<nat>, procs: map<nat, Proc>, procs1: map<nat, Proc>, c: nat, pid: nat)
      requires Listed(list, procs) && Listed([c] + list, procs1) && c in procs1 && procs1[c].pid == pid
      requires forall p | p in procs :: p in procs1 && procs1[p].pid == procs[p].pid
      ensures forall x | x in Live([c] + list, procs1) :: x in Live(list, procs) + [pid]
    {
      var r, live := Live([c] + list, procs1), Live(list, procs);
      forall i | 0 <= i < |r| ensures r[i] in live + [pid] {
        if i == 0 {
          assert (live + [pid])[|live|] == r[0];
        } else {
          assert ([c] + list)[i] == list[i - 1] && (live + [pid])[i - 1] == r[i];
        }
      }
    }

    // the other operations keep it: no process gets a pid, and reaping only frees one

    method Exit()
      requires Valid() && kernel.Running() && kernel.current != INIT
      modifies kernel`procs, kernel`kids
      ensures Valid() && kernel.procs.Keys == old(kernel.procs).Keys
      ensures kernel.procs[kernel.current].state == Zombie && kernel.kids[kernel.current] == []
      ensures forall p | p in kernel.procs :: kernel.procs[p].pid == old(kernel.procs)[p].pid
    {
      hide Forest, Lives, ListOk;
      kernel.Exit();
      assert Live(kernel.procList, kernel.procs) == old(Live(kernel.procList, kernel.procs));
    }

    method Wait(pid: nat) returns (r: WaitResult)
      requires Valid() && kernel.Running()
      modifies kernel
      ensures Valid() && (r.BadProc? <==> !old(kernel.HasKid(pid)))
      ensures kernel.procs.Keys == old(kernel.procs).Keys - (if r.Reaping? then {r.child} else {})
      ensures r.Reaping? ==> r.child in old(kernel.procs) && old(kernel.procs)[r.child].state == Zombie
      ensures r.Slept? ==> kernel.current in kernel.procs && kernel.procs[kernel.current].wait == ForChild(pid)
    {
      hide Forest, Lives, ListOk, Allocator.Valid, Kernel.HasKid, Kernel.ReapsNth, Reaped, Live;
      ghost var list, procs := kernel.procList, kernel.procs;
      ListedIf(list, procs, kernel.nrProcess);
      r := kernel.Wait(pid);
      ListedIf(kernel.procList, kernel.procs, kernel.nrProcess);
      assert forall p | p in kernel.procs :: p in procs && kernel.procs[p].pid == procs[p].pid;
      StillListed(list, procs, kernel.procList, kernel.procs, kernel.nrProcess);
      FewerPids(list, procs, kernel.procList, kernel.procs);
      pids.Fewer(Live(list, procs), Live(kernel.procList, kernel.procs));
    }

    method Kill(pid: nat) returns (r: nat)
      requires Valid()
      modifies kernel`procs
      ensures Valid() && kernel.procs.Keys == old(kernel.procs).Keys
      ensures r == 0 <==> exists p | p in old(kernel.procs) && p != IDLE && old(kernel.procs[p]).pid == pid ::
                            Killed(old(kernel.procs), kernel.procs, p)
    {
      hide Forest, Lives, ListOk, Killed;
      r := kernel.Kill(pid);
      assert Live(kernel.procList, kernel.procs) == old(Live(kernel.procList, kernel.procs));
    }

    method Block(interruptible: bool)
      requires Valid() && kernel.Running()
      modifies kernel`procs
      ensures Valid() && kernel.procs.Keys == old(kernel.procs).Keys
      ensures kernel.procs[kernel.current].state == Sleeping
    {
      hide Forest, Lives, ListOk;
      kernel.Block(interruptible);
      assert Live(kernel.procList, kernel.procs) == old(Live(kernel.procList, kernel.procs));
    }

    method Wakeup(p: nat)
      requires Valid() && p in kernel.procs && kernel.procs[p].state != Zombie
      modifies kernel`procs
      ensures Valid() && kernel.procs.Keys == old(kernel.procs).Keys && kernel.procs[p].state == Runnable
    {
      hide Forest, Lives, ListOk;
      kernel.Wakeup(p);
      assert Live(kernel.procList, kernel.procs) == old(Live(kernel.procList, kernel.procs));
    }

    method Switch(next: nat)
      requires Valid() && next in kernel.procs && kernel.procs[next].state == Runnable
      modifies kernel`current
      ensures Valid() && kernel.current == next
    {
      kernel.Switch(next);
    }

    lemma StillListed(list: seq<nat>, procs: map<nat, Proc>, list1: seq<nat>, procs1: map<nat, Proc>, count1: nat)
      requires (forall p | p in procs && p != IDLE :: p in list) && ListOk(list1, procs1.Keys, count1)
      requires forall p | p in procs1 :: p in procs
      ensures forall p | p in list1 :: p in list && p in procs && p in procs1
    {}
  }
}
