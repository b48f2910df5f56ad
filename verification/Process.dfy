/** The life of processes (Lab5/kern/process/proc.c and Lab5/kern/schedule/sched.c): fork, exit, wait,
    kill and the scheduler, as steps of a kernel that is not preempted. Lists are sequences. */
module Process {
  import opened Options
  import opened Pid
  import opened ProcessSpec
  import opened ProcTree
  import opened Seqs

  const BUCKETS: int := 1024

  datatype ForkResult = NoFreeProc | NoMemory | Forked(pid: int)
  datatype WaitResult = Reaped(code: int) | BadProc | Blocked
  datatype ExitResult = Exited | Panic
  datatype KillResult = Killed | AlreadyKilled | NoSuchProc

  /** The processes on the list are those there are, the idle one apart; each pid occurs once. */
  ghost predicate Listed(list: seq<Proc>, all: set<Proc>, idle: Proc) {
    && (forall p :: p in all ==> p == idle || p in list) && (forall p :: p in list ==> p in all)
    && idle in all && idle !in list && idle.pid == 0
    && (forall i :: 0 <= i < |list| ==> 0 < list[i].pid < MAX_PID)
    && forall i, j :: 0 <= i < j < |list| ==> list[i].pid != list[j].pid
  }

  /** Each bucket holds the processes whose pid hashes to it. */
  ghost predicate Hashed(hash: seq<seq<Proc>>, list: seq<Proc>, idle: Proc, all: set<Proc>) {
    && |hash| == BUCKETS && Listed(list, all, idle)
    && (forall p :: p in list ==> 0 <= p.pid < MAX_PID && p in hash[PidHash(p.pid)])
    && forall p, h :: 0 <= h < BUCKETS && p in hash[h] ==> p in list && InBucket(p, h)
  }

  ghost predicate InBucket(p: Proc, h: int) {
    0 <= p.pid < MAX_PID && PidHash(p.pid) == h
  }

  /** The first process forked is older than all later ones. */
  ghost predicate Births(all: set<Proc>, idle: Proc, init: Proc, births: nat) {
    && init in all && init != idle
    && (forall p :: p in all ==> p.birth < births)
    && forall p :: p in all && p != idle && p != init ==> init.birth < p.birth
  }

  /** A process sleeps exactly while it waits for a child, inside do_wait; a zombie has no children. */
  ghost predicate Settled(p: Proc, cs: seq<Proc>)
    reads {p}`state, {p}`waiting, {p}`waitFor
  {
    && p.state != Uninit && (p.state == Sleeping <==> p.waiting)
    && (p.state == Sleeping ==> p.waitFor.Some?)
    && (p.state == Zombie ==> cs == [] && p.waitFor == None)
  }

  /** A sleeping process has something to wait for, and no zombie among the children it waits for. */
  ghost predicate NoLostWakeup(p: Proc, cs: seq<Proc>)
    reads {p}`state, {p}`waitFor, cs`state
  {
    p.state == Sleeping && p.waitFor.Some? ==>
      && (p.waitFor.value == 0 ==> cs != [] && forall c :: c in cs ==> c.state != Zombie)
      && (p.waitFor.value != 0 ==> exists c :: c in cs && c.pid == p.waitFor.value && c.state != Zombie)
  }

  /** What holds of the states of all processes; `exiting` may still have children. */
  ghost predicate States(all: set<Proc>, idle: Proc, init: Proc, children: map<Proc, seq<Proc>>, exiting: Proc?)
    reads all`state, all`waiting, all`waitFor
  {
    && Members(all, idle, children)
    && (forall p :: p in all ==> Settled(p, if p == exiting then [] else children[p]) && NoLostWakeup(p, children[p]))
    && (init in all ==> init.state != Zombie) && idle.state == Runnable && idle.waitFor == None
  }

  /** `find_proc` finds what a scan of the list would find. */
  method Find(hash: seq<seq<Proc>>, pid: int, ghost list: seq<Proc>, ghost idle: Proc, ghost all: set<Proc>)
    returns (r: Proc?)
    requires Hashed(hash, list, idle, all)
    ensures r != null <==> pid in Pids(list)
    ensures r != null ==> r in list && r.pid == pid && forall p :: p in list && p.pid == pid ==> p == r
  {
    if 0 < pid < MAX_PID {
      var bucket := hash[PidHash(pid)];
      for i := 0 to |bucket|
        invariant forall j :: 0 <= j < i ==> bucket[j].pid != pid
      {
        if bucket[i].pid == pid {
          assert bucket[i] in hash[PidHash(pid)];
          OnePid(list, all, idle, bucket[i]);
          return bucket[i];
        }
      }
      assert forall p :: p in bucket ==> p.pid != pid;
      forall p | p in list ensures p.pid != pid {
        assert p in hash[PidHash(p.pid)];
      }
    }
    return null;
  }

  lemma PidListed(list: seq<Proc>, p: Proc)
    requires p in list
    ensures p.pid in Pids(list)
  {
    var i :| 0 <= i < |list| && list[i] == p;
    assert Pids(list)[i] == p.pid;
  }

  lemma OnePid(list: seq<Proc>, all: set<Proc>, idle: Proc, p: Proc)
    requires Listed(list, all, idle) && p in list
    ensures p.pid in Pids(list) && forall q :: q in list && q.pid == p.pid ==> q == p
  {
    var i :| 0 <= i < |list| && list[i] == p;
    assert Pids(list)[i] == p.pid;
  }

  /** `wakeup_proc`, whose assertion its caller must see to. */
  method Wakeup(p: Proc)
    requires p.state != Zombie
    modifies p`state, p`waiting
    ensures p.state == Runnable
    ensures old(p.state) == Runnable ==> p.waiting == old(p.waiting)
    ensures old(p.state) != Runnable ==> !p.waiting
  {
    if p.state != Runnable {
      p.state, p.waiting := Runnable, false;
    }
  }

  ghost function InfoOf(p: Proc): Info
    reads {p}`state, {p}`waitFor, {p}`exiting, {p}`needResched, {p}`exitCode
  {
    Info(p.state, p.waitFor, p.exiting, p.needResched, p.exitCode)
  }

  ghost function Infos(all: set<Proc>): (m: map<Proc, Info>)
    reads all`state, all`waitFor, all`exiting, all`needResched, all`exitCode
    ensures m.Keys == all && forall p :: p in all ==> m[p] == InfoOf(p)
  {
    map p | p in all :: InfoOf(p)
  }

  twostate lemma OneChanged(all: set<Proc>, new p: Proc)
    requires old(allocated(all)) && p in all && forall q :: q in all && q != p ==> InfoOf(q) == old(InfoOf(q))
    ensures Infos(all) == old(Infos(all))[p := InfoOf(p)]
  {
    hide InfoOf;
  }

  twostate lemma OneAdded(all: set<Proc>, new p: Proc)
    requires old(allocated(all)) && p !in all && forall q :: q in all ==> InfoOf(q) == old(InfoOf(q))
    ensures Infos(all + {p}) == old(Infos(all))[p := InfoOf(p)]
  {
    hide InfoOf;
  }

  twostate lemma OneGone(all: set<Proc>, new p: Proc)
    requires old(allocated(all)) && forall q :: q in all && q != p ==> InfoOf(q) == old(InfoOf(q))
    ensures Infos(all - {p}) == old(Infos(all)) - {p}
  {
    hide InfoOf;
  }

  /** The runnable processes on the list. */
  ghost function ReadyOf(list: seq<Proc>): set<Proc>
    reads list`state
  {
    set p | p in list && p.state == Runnable
  }

  /** The scan in `schedule`. */
  method Pick(list: seq<Proc>, from: nat, idle: Proc) returns (next: Proc)
    requires from <= |list|
    ensures Chosen(list, ReadyOf(list), from, idle, next) && (next == idle || next in list)
    ensures idle.state == Runnable ==> next.state == Runnable
  {
    var le, found: Proc?, steps := from, null, 0;
    ghost var n, ready := |list|, ReadyOf(list);
    while true
      invariant 0 <= steps <= n && le == (if steps == 0 then from else After(n, from, steps))
      invariant forall i: nat :: 1 <= i <= steps ==> !ReadyAt(list, ready, After(n, from, i))
      invariant found == null || found.state != Runnable
      decreases n + 1 - steps
    {
      le := if le == |list| then 0 else le + 1;
      steps := steps + 1;
      if le != 0 {
        found := list[le - 1];
        if found.state == Runnable {
          assert FirstAt(list, ready, from, steps, found);
          break;
        }
      }
      if le == from {
        break;
      }
    }
    next := idle;
    if found != null && found.state == Runnable {
      next := found;
    } else {
      forall p | p in list ensures p !in ready {
        var k :| 0 <= k < |list| && list[k] == p;
        var j := RoundTrip(n, from, k + 1);
        assert !ReadyAt(list, ready, After(n, from, j));
      }
    }
  }

  function FirstBuckets(p: Proc): seq<seq<Proc>>
    requires 0 <= p.pid < MAX_PID
  {
    seq(BUCKETS, h requires 0 <= h < BUCKETS => if h == PidHash(p.pid) then [p] else [])
  }

  lemma FirstHashed(idle: Proc, p: Proc)
    requires 0 < p.pid < MAX_PID && idle.pid == 0
    ensures Hashed(FirstBuckets(p), [p], idle, {idle, p})
  {
  }

  lemma FirstBirths(idle: Proc, p: Proc)
    requires idle != p && idle.birth == 0 && p.birth == 1
    ensures Births({idle, p}, idle, p, 2)
  {
  }

  lemma FirstPid(pid: int)
    requires NextFree(MAX_PID, Pids([]), pid)
    ensures pid == 1
  {
    NoPids();
    assert 1 !in Pids([]);
  }

  lemma NoPids()
    ensures Pids([]) == []
  {
  }

  lemma FirstFamily(idle: Proc, p: Proc)
    requires idle != p && idle.birth < p.birth && p.parent == idle && idle.cptr == p && p.cptr == null
    requires p.yptr == null && p.optr == null && idle.state == Runnable && p.state == Runnable
    requires !idle.waiting && !p.waiting && idle.waitFor == None && p.waitFor == None
    ensures Family({idle, p}, idle, map[idle := [p], p := []], null)
    ensures States({idle, p}, idle, p, map[idle := [p], p := []], null)
  {
    assert Sibling(idle, [p], 0, false);
  }

  // ---------- what a new process changes ----------

  lemma ListedAdded(list: seq<Proc>, all: set<Proc>, idle: Proc, p: Proc)
    requires Listed(list, all, idle) && p !in all && 0 < p.pid < MAX_PID && p.pid !in Pids(list)
    ensures Listed([p] + list, all + {p}, idle)
  {
    forall i | 0 <= i < |list| ensures list[i].pid != p.pid {
      assert Pids(list)[i] in Pids(list);
    }
  }

  /** list_add to the bucket. */
  function HashWith(hash: seq<seq<Proc>>, p: Proc): seq<seq<Proc>>
    requires |hash| == BUCKETS && 0 <= p.pid < MAX_PID
  {
    hash[PidHash(p.pid) := [p] + hash[PidHash(p.pid)]]
  }

  lemma HashedAdded(hash: seq<seq<Proc>>, list: seq<Proc>, idle: Proc, all: set<Proc>, p: Proc)
    requires Hashed(hash, list, idle, all) && p !in all && 0 < p.pid < MAX_PID && p.pid !in Pids(list)
    ensures Hashed(HashWith(hash, p), [p] + list, idle, all + {p})
  {
    hide Listed;
    ListedAdded(list, all, idle, p);
    assert forall q :: q in [p] + list ==> q == p || q in list;
  }

  /** The interval that get_pid has cached stays free of pids when the list loses processes or gains
      the one with the last pid. */
  lemma StillUnlisted(a: PidAllocator, list: seq<Proc>, list': seq<Proc>)
    requires a.Valid(Pids(list)) && forall p :: p in list' ==> p in list || p.pid == a.lastPid
    ensures a.Valid(Pids(list'))
  {
    forall q | q in Pids(list') ensures q in Pids(list) || q == a.lastPid {
      var i :| 0 <= i < |list'| && list'[i].pid == q;
      if list'[i] in list {
        var j :| 0 <= j < |list| && list[j] == list'[i];
        assert Pids(list)[j] == q;
      }
    }
    FewerPids(Pids(list), Pids(list'), a.lastPid, a.nextSafe);
  }

  lemma BirthsAdded(all: set<Proc>, idle: Proc, init: Proc, births: nat, p: Proc)
    requires Births(all, idle, init, births) && p.birth == births && p !in all
    ensures Births(all + {p}, idle, init, births + 1)
  {
  }

  lemma StatesAdded(all: set<Proc>, idle: Proc, init: Proc, children: map<Proc, seq<Proc>>, q: Proc, p: Proc)
    requires States(all, idle, init, children, null) && q in all && p !in all && q.state == Runnable && init in all
    requires p.state == Runnable && !p.waiting
    ensures q in children && States(all + {p}, idle, init, WithChild(children, q, p), null)
  {
    hide NoLostWakeup;
    MembersAdded(all, idle, children, q, p);
    NotSleeping(p, []);
    NotSleeping(q, [p] + children[q]);
  }

  lemma NotSleeping(p: Proc, cs: seq<Proc>)
    requires p.state != Sleeping
    ensures NoLostWakeup(p, cs)
  {
  }

  // ---------- what a process that is reaped changes ----------

  lemma ListedRemoved(list: seq<Proc>, all: set<Proc>, idle: Proc, p: Proc)
    requires Listed(list, all, idle) && p in list
    ensures |Excluding(list, p)| == |list| - 1 && Listed(Excluding(list, p), all - {p}, idle)
  {
    var i :| 0 <= i < |list| && list[i] == p;
    ExcludingOnce(list, i);
    var r := Without(list, i);
    assert forall k :: 0 <= k < |r| ==> r[k] == list[if k < i then k else k + 1];
  }

  lemma HashedRemoved(hash: seq<seq<Proc>>, list: seq<Proc>, idle: Proc, all: set<Proc>, p: Proc)
    requires Hashed(hash, list, idle, all) && p in list && p != idle
    ensures |hash| == BUCKETS && 0 <= p.pid < MAX_PID && |Excluding(list, p)| == |list| - 1
    ensures Hashed(hash[PidHash(p.pid) := Excluding(hash[PidHash(p.pid)], p)], Excluding(list, p), idle, all - {p})
  {
    hide Listed, Excluding, PidHash;
    ListedRemoved(list, all, idle, p);
  }

  lemma BirthsRemoved(all: set<Proc>, idle: Proc, init: Proc, births: nat, p: Proc)
    requires Births(all, idle, init, births) && p != init
    ensures Births(all - {p}, idle, init, births)
  {
  }

  lemma StatesRemoved(all: set<Proc>, idle: Proc, init: Proc, children: map<Proc, seq<Proc>>, q: Proc, m: int)
    requires States(all, idle, init, children, null) && q in all && q.state == Runnable && q in children
    requires 0 <= m < |children[q]| && children[q][m] != q && children[q][m] != idle
    requires Members(all - {children[q][m]}, idle, WithoutChild(children, q, m))
    ensures States(all - {children[q][m]}, idle, init, WithoutChild(children, q, m), null)
  {
    hide NoLostWakeup;
    NotSleeping(q, WithoutChild(children, q, m)[q]);
  }

  lemma WithoutZombie(all: set<Proc>, idle: Proc, children: map<Proc, seq<Proc>>, p: Proc, m: int)
    requires Family(all, idle, children, null) && p in all && p in children && 0 <= m < |children[p]|
    ensures var c := children[p][m]; WithoutChild(children, p, m) == (children - {c})[p := Excluding(children[p], c)]
  {
    hide Members, Home, Sibling, Excluding;
    assert Siblings(p, children[p], false);
    ExcludingOnce(children[p], m);
  }

  lemma FamilyMembers(all: set<Proc>, idle: Proc, children: map<Proc, seq<Proc>>, stale: Proc?)
    requires Family(all, idle, children, stale)
    ensures Members(all, idle, children)
  {
  }

  /** `found` is the zombie that `do_wait(pid)` reaps: the youngest one, or the one with the pid. */
  ghost predicate FirstZombie(cs: seq<Proc>, pid: int, found: Proc)
    reads cs`state
  {
    && Awaited(cs, pid, found) && found.state == Zombie
    && (pid == 0 ==> exists i :: ZombieAt(cs, i, found))
  }

  ghost predicate ZombieAt(cs: seq<Proc>, i: int, c: Proc)
    reads cs`state
  {
    0 <= i < |cs| && cs[i] == c && forall j :: 0 <= j < i ==> cs[j].state != Zombie
  }

  // ---------- what an exit changes ----------

  /** A child moves to a process that does not sleep, or does so and the child is no zombie. */
  lemma StatesMoved(all: set<Proc>, idle: Proc, init: Proc, children: map<Proc, seq<Proc>>, from: Proc, to: Proc)
    requires States(all, idle, init, children, from) && from in all && to in all && from != to
    requires from in children && to in children
    requires children[from] != [] && from.state == Zombie && (to.state == Sleeping ==> children[from][0].state != Zombie)
    requires to.state != Zombie && Members(all, idle, Moved(children, from, to))
    ensures States(all, idle, init, Moved(children, from, to), from)
  {
    var children' := Moved(children, from, to);
    NotSleeping(from, children'[from]);
    forall p | p in all && p != from
      ensures Settled(p, children'[p]) && NoLostWakeup(p, children'[p])
    {
      assert Settled(p, children[p]) && NoLostWakeup(p, children[p]);
      assert p == to ==> forall c :: c in children[to] ==> c in children'[to];
    }
  }

  lemma SiblingsToo(p: Proc, cs: seq<Proc>, stale: bool)
    requires Siblings(p, cs, false)
    ensures Siblings(p, cs, stale)
  {
    forall i | 0 <= i < |cs| ensures Sibling(p, cs, i, stale) {
      assert Sibling(p, cs, i, false);
    }
  }

  lemma StaleToo(all: set<Proc>, idle: Proc, children: map<Proc, seq<Proc>>, stale: Proc)
    requires Family(all, idle, children, null)
    ensures Family(all, idle, children, stale)
  {
    hide Home, Siblings;
    forall p | p in all ensures Siblings(p, children[p], p == stale) {
      SiblingsToo(p, children[p], p == stale);
    }
  }

  class Kernel {
    const idle: Proc
    const init: Proc
    const pids: PidAllocator
    var current: Proc
    var procList: seq<Proc>
    var hashList: seq<seq<Proc>>
    var nrProcess: int
    ghost var all: set<Proc>
    ghost var children: map<Proc, seq<Proc>>
    ghost var births: nat

    /** `proc_init`: the idle process, and its child that will be the parent of orphans. */
    constructor ()
      ensures Valid() && current == idle && procList == [init] && init.pid == 1 && init.state == Runnable
      ensures fresh(all) && fresh(pids) && init != idle
      ensures children == map[idle := [init], init := []]
    {
      hide Hashed, FirstBuckets, PidHash, Family, States, Births, PidAllocator.Valid, Pids, NextFree,
           Unlisted;
      var alloc := new PidAllocator();
      var first := new Proc(0, 0, null);
      first.state, first.needResched := Runnable, true;
      ghost var wrapped;
      var pid;
      pid, wrapped := alloc.GetPid(Pids([]));
      NoPids();
      FirstPid(pid);
      var second := new Proc(pid, 1, first);
      second.state := Runnable;
      first.cptr := second;
      idle, init, pids, current, procList := first, second, alloc, first, [second];
      hashList := FirstBuckets(second);
      nrProcess := 2;
      all, children, births := {first, second}, map[first := [second], second := []], 2;
      new;
      FirstHashed(idle, init);
      FirstBirths(idle, init);
      StillUnlisted(pids, [], procList);
      FirstFamily(idle, init);
    }

    ghost predicate Tables()
      reads this, pids, init`parent
    {
      && Hashed(hashList, procList, idle, all) && Births(all, idle, init, births) && init.parent == idle
      && pids.Valid(Pids(procList)) && nrProcess == |procList| + 1 && nrProcess <= MAX_PROCESS
      && current in all
    }

    ghost predicate Valid()
      reads this, pids, all, init
    {
      && Tables() && Family(all, idle, children, null) && States(all, idle, init, children, null)
      && current.state == Runnable
    }

    ghost function ViewOf(): View
      reads this, pids, all`state, all`waitFor, all`exiting, all`needResched, all`exitCode
    {
      View(current, procList, children, Infos(all), pids.lastPid)
    }

    lemma ViewIs()
      ensures ViewOf() == View(current, procList, children, Infos(all), pids.lastPid)
    {
    }

    /** The children of the current process. */
    ghost function Own(): seq<Proc>
      reads this
    {
      if current in children then children[current] else []
    }

    /** `schedule` */
    method Schedule()
      requires Tables() && idle.state == Runnable
      modifies this`current, all`needResched, all`runs
      ensures Tables() && current.state == Runnable
      ensures Switched(old(ViewOf()), ViewOf(), idle) && !old(current).needResched
      ensures forall p :: p in all ==> p.runs == old(p.runs) + if p == current then 1 else 0
    {
      hide Chosen, Births, PidAllocator.Valid;
      var last := 0;
      if current != idle {
        var i :| 0 <= i < |procList| && procList[i] == current;
        last := i + 1;
      }
      ReadyHere();
      Dispatch(last);
    }

    /** ... with all else in order. */
    method GiveUp()
      requires Tables() && Family(all, idle, children, null) && States(all, idle, init, children, null)
      modifies this`current, all`needResched, all`runs
      ensures Valid() && Switched(old(ViewOf()), ViewOf(), idle) && !old(current).needResched
    {
      hide Tables, Family, States, Infos, Switched;
      IdleReady();
      Schedule();
    }

    lemma ReadyHere()
      requires Tables()
      ensures Ready(ViewOf()) == ReadyOf(procList)
    {
      hide Births, PidAllocator.Valid;
    }

    /** The tables are about neither children nor who runs. */
    twostate lemma SameTables()
      requires old(Tables()) && init.parent == idle && nrProcess == old(nrProcess) && current in all
      requires hashList == old(hashList) && procList == old(procList) && all == old(all) && births == old(births)
      requires old(allocated(pids)) && unchanged(pids)
      ensures Tables()
    {
      hide Hashed, Births;
    }

    method Unmark()
      requires current in all
      modifies current`needResched
      ensures !current.needResched
      ensures var a := old(ViewOf()); ViewOf() == Put(a, a.current, Mine(a).(resched := false))
    {
      hide Infos;
      current.needResched := false;
      OneChanged(all, current);
    }

    /** The rest of `schedule`, with the position that the scan starts from. */
    method Dispatch(last: nat)
      requires Tables() && idle.state == Runnable && Starts(procList, last, current, idle)
      modifies this`current, all`needResched, all`runs
      ensures Tables() && current.state == Runnable && Chosen(procList, ReadyOf(procList), last, idle, current)
      ensures !old(current).needResched
      ensures var a := old(ViewOf());
        ViewOf() == Put(a, a.current, Mine(a).(resched := false)).(current := current)
      ensures forall p :: p in all ==> p.runs == old(p.runs) + if p == current then 1 else 0
    {
      hide Tables, Chosen, Infos, InfoOf, Mine, Put;
      BirthsHere();
      ListedHere();
      Unmark();
      var next := Pick(procList, last, idle);
      SwitchTo(next);
    }

    /** proc_run */
    method SwitchTo(next: Proc)
      requires Tables() && next in all
      modifies this`current, next`runs
      ensures Tables() && current == next && next.runs == old(next.runs) + 1
      ensures ViewOf() == old(ViewOf()).(current := next)
    {
      hide Tables, Infos;
      BirthsHere();
      next.runs := next.runs + 1;
      current := next;
      SameTables();
    }

    lemma ListedHere()
      requires Tables()
      ensures idle in all && forall p :: p in procList ==> p in all
    {
    }

    /** `do_fork`; `memory` says whether there is memory for the new process. */
    method Fork(memory: bool) returns (r: ForkResult)
      requires Valid()
      modifies this`procList, this`hashList, this`nrProcess, this`all, this`children, this`births, pids
      modifies all`cptr, all`yptr
      ensures Valid() && current == old(current) && fresh(all - old(all))
      ensures r.NoFreeProc? <==> old(nrProcess) >= MAX_PROCESS
      ensures r.NoMemory? <==> old(nrProcess) < MAX_PROCESS && !memory
      ensures !r.Forked? ==> procList == old(procList) && children == old(children)
      ensures r.Forked? ==>
        && |procList| == |old(procList)| + 1 && procList[1..] == old(procList) && fresh(procList[0])
        && procList[0].pid == r.pid && r.pid !in Pids(old(procList)) && procList[0].parent == current
        && NextFree(old(pids.lastPid), Pids(old(procList)), r.pid)
        && current in old(children) && children == WithChild(old(children), current, procList[0])
        && procList[0].state == Runnable
      ensures Forks(old(ViewOf()), memory, ViewOf())
    {
      hide Hashed, Births, PidAllocator.Valid, Unlisted, AllUsed, Family, States, Siblings, Home, Members, PidHash, Pids,
           Infos, InfoOf;
      if nrProcess >= MAX_PROCESS {
        return NoFreeProc;
      }
      if !memory {
        return NoMemory;
      }
      CurrentSettled();
      assert !current.waiting;
      ghost var wrapped;
      var pid;
      pid, wrapped := pids.GetPid(Pids(procList));
      ghost var before := all;
      var proc := Child(pid);
      OneAdded(before, proc);
      StillUnlisted(pids, old(procList), procList);
      return Forked(pid);
    }

    /** alloc_proc and what follows, with the pid of the new process. */
    method Child(pid: int) returns (proc: Proc)
      requires Hashed(hashList, procList, idle, all) && Births(all, idle, init, births)
      requires Family(all, idle, children, null) && States(all, idle, init, children, null)
      requires current in all && current.state == Runnable && 0 < pid < MAX_PID && pid !in Pids(procList)
      modifies this`procList, this`hashList, this`nrProcess, this`all, this`children, this`births, all`cptr, all`yptr
      ensures Hashed(hashList, procList, idle, all) && Births(all, idle, init, births)
      ensures Family(all, idle, children, null) && States(all, idle, init, children, null)
      ensures fresh(proc) && proc.pid == pid && proc.parent == current && proc.state == Runnable
      ensures InfoOf(proc) == Info(Runnable, None, false, false, 0)
      ensures procList == [proc] + old(procList) && all == old(all) + {proc} && nrProcess == old(nrProcess) + 1
      ensures current in old(children) && children == WithChild(old(children), current, proc)
    {
      hide Hashed, Births, Family, States, PidHash, Pids;
      InitThere();
      proc := new Proc(pid, births, current);
      SetLinks(proc);
      Wakeup(proc);
      StatesAdded(old(all), idle, init, old(children), current, proc);
    }

    /** hash_proc and set_links. */
    method SetLinks(proc: Proc)
      requires Hashed(hashList, procList, idle, all) && Births(all, idle, init, births)
      requires Family(all, idle, children, null)
      requires proc !in all && proc.parent != null && proc.parent in all && proc.birth == births && proc.cptr == null
      requires 0 < proc.pid < MAX_PID && proc.pid !in Pids(procList)
      modifies this`procList, this`hashList, this`nrProcess, this`all, this`children, this`births
      modifies all`cptr, all`yptr, proc`yptr, proc`optr
      ensures Hashed(hashList, procList, idle, all) && Births(all, idle, init, births)
      ensures Family(all, idle, children, null)
      ensures procList == [proc] + old(procList) && all == old(all) + {proc} && nrProcess == old(nrProcess) + 1
      ensures proc.parent in old(children) && children == WithChild(old(children), proc.parent, proc)
    {
      hide Hashed, Births, Family, PidHash;
      HashedAdded(hashList, procList, idle, all, proc);
      BirthsAdded(all, idle, init, births, proc);
      Younger(proc.parent);
      HashSize();
      hashList := HashWith(hashList, proc);
      procList := [proc] + procList;
      AddChild(proc.parent, proc, all, idle, children);
      nrProcess := nrProcess + 1;
      all, children, births := all + {proc}, WithChild(children, proc.parent, proc), births + 1;
    }

    lemma InitThere()
      requires Births(all, idle, init, births)
      ensures init in all && init != idle
    {
    }

    lemma Younger(p: Proc)
      requires Births(all, idle, init, births) && p in all
      ensures p.birth < births
    {
    }

    lemma HashSize()
      requires Hashed(hashList, procList, idle, all)
      ensures |hashList| == BUCKETS
    {
      hide Listed;
    }

    lemma CurrentSettled()
      requires Valid()
      ensures !current.waiting && current in all && current.state == Runnable
    {
      hide Hashed, Births, Family;
      assert Settled(current, children[current]);
    }

    /** The end of `do_wait`: the zombie, the `m`-th child, is taken off the lists and out of the tree. */
    method TakeOut(proc: Proc) returns (ghost m: int)
      requires Valid() && proc in all && proc != idle && proc.state == Zombie && proc.parent == current
      modifies this`procList, this`hashList, this`nrProcess, this`all, this`children, all`cptr, all`yptr, all`optr
      ensures Valid() && all == old(all) - {proc}
      ensures proc in old(procList) && procList == Excluding(old(procList), proc)
      ensures current in old(children) && 0 <= m < |old(children)[current]| && old(children)[current][m] == proc
      ensures children == WithoutChild(old(children), current, m)
    {
      hide Hashed, Births, PidAllocator.Valid, Family, States, Siblings, Home, PidHash, Members, WithoutChild,
           Excluding, ViewOf;
      ZombieFacts(proc);
      HashedRemoved(hashList, procList, idle, all, proc);
      BirthsRemoved(all, idle, init, births, proc);
      StillUnlisted(pids, procList, Excluding(procList, proc));
      hashList := hashList[PidHash(proc.pid) := Excluding(hashList[PidHash(proc.pid)], proc)];
      procList := Excluding(procList, proc);
      ghost var p;
      p, m := RemoveChild(proc, all, idle, children);
      FamilyFacts(old(all) - {proc}, idle, WithoutChild(children, p, m), null);
      FamilyMembers(old(all) - {proc}, idle, WithoutChild(children, p, m), null);
      StatesRemoved(all, idle, init, children, p, m);
      nrProcess := nrProcess - 1;
      all, children := all - {proc}, WithoutChild(children, p, m);
    }

    method Reap(proc: Proc)
      requires Valid() && proc in all && proc != idle && proc.state == Zombie && proc.parent == current
      modifies this`procList, this`hashList, this`nrProcess, this`all, this`children, all`cptr, all`yptr, all`optr
      ensures Valid() && all == old(all) - {proc}
      ensures proc in old(procList) && procList == Excluding(old(procList), proc)
      ensures var a := old(ViewOf());
        ViewOf() == View(current, Excluding(a.list, proc), (a.children - {proc})[current := Excluding(OwnOf(a), proc)],
                         a.info - {proc}, a.last)
    {
      hide Tables, Family, States, WithoutChild, Excluding, Infos;
      ChildHere(proc);
      ghost var before := all;
      ghost var m := TakeOut(proc);
      OneGone(before, proc);
    }

    /** The zombie is one of the children, and they are without duplicates. */
    lemma ChildHere(c: Proc)
      requires Valid() && c in all && c != idle && c.parent == current
      ensures current in children
      ensures forall m :: 0 <= m < |children[current]| && children[current][m] == c ==>
        WithoutChild(children, current, m) == (children - {c})[current := Excluding(children[current], c)]
    {
      hide Hashed, Births, PidAllocator.Valid, Family, States, Excluding, WithoutChild;
      FamilyFacts(all, idle, children, null);
      forall m | 0 <= m < |children[current]| && children[current][m] == c
        ensures WithoutChild(children, current, m) == (children - {c})[current := Excluding(children[current], c)]
      {
        WithoutZombie(all, idle, children, current, m);
      }
    }

    lemma ZombieFacts(p: Proc)
      requires Valid() && p in all && p != idle && p.state == Zombie
      ensures p != init && p in procList && p in children && children[p] == [] && p != current
    {
      hide Births, Family, NoLostWakeup;
      assert Settled(p, children[p]);
    }

    /** The search of `do_wait`. */
    method SearchChild(pid: int) returns (haskid: bool, found: Proc?)
      requires Valid()
      ensures current in children
      ensures haskid <==> HasChild(Own(), pid)
      ensures found != null ==> haskid && FirstZombie(Own(), pid, found)
      ensures found == null ==> forall c :: c in Own() && Awaited(Own(), pid, c) ==> c.state != Zombie
    {
      hide Births, PidAllocator.Valid, States, Hashed, Home;
      FamilyFacts(all, idle, children, null);
      ghost var cs := children[current];
      haskid, found := false, null;
      if pid != 0 {
        var proc := Find(hashList, pid, procList, idle, all);
        assert forall c :: c in cs ==> c in procList by { ChildrenListed(cs); }
        forall c | c in cs && c.pid == pid ensures c == proc { PidListed(procList, c); }
        if proc != null && proc.parent == current {
          ChildrenOfParent(proc);
          assert proc in Own() && Awaited(Own(), pid, proc);
          haskid := true;
          if proc.state == Zombie {
            found := proc;
          }
        } else {
          forall c | c in cs ensures !Awaited(cs, pid, c) {
            ChildOf(current, cs, false, c);
          }
        }
      } else {
        var proc, i := current.cptr, 0;
        while proc != null
          invariant 0 <= i <= |cs| && proc == (if i < |cs| then cs[i] else null)
          invariant haskid <==> i > 0
          invariant forall j :: 0 <= j < i ==> cs[j].state != Zombie
          decreases |cs| - i
        {
          haskid := true;
          assert proc in Own() && Awaited(Own(), pid, proc);
          if proc.state == Zombie {
            assert ZombieAt(cs, i, proc);
            found := proc;
            return;
          }
          assert Sibling(current, cs, i, false);
          proc, i := proc.optr, i + 1;
        }
        if haskid { assert cs[0] in Own() && Awaited(Own(), pid, cs[0]); }
      }
    }

    lemma ChildrenListed(cs: seq<Proc>)
      requires Valid() && current in children && cs == children[current]
      ensures forall c :: c in cs ==> c in procList
    {
      hide Births, PidAllocator.Valid, States, Home, Siblings;
    }

    lemma ChildrenOfParent(p: Proc)
      requires Valid() && p in procList && p.parent == current
      ensures current in children && p in children[current]
    {
      hide Births, PidAllocator.Valid, States, Siblings;
      assert Home(all, children, p);
    }

    method Doze(pid: int)
      requires current in all
      modifies current`state, current`waiting, current`waitFor
      ensures current.state == Sleeping && current.waiting && current.waitFor == Some(pid)
      ensures var a := old(ViewOf());
        ViewOf() == Put(a, current, Mine(a).(state := Sleeping, waitFor := Some(pid)))
    {
      hide Infos;
      current.state, current.waiting, current.waitFor := Sleeping, true, Some(pid);
      OneChanged(all, current);
    }

    /** The process goes to sleep inside do_wait. */
    method Sleep(pid: int)
      requires States(all, idle, init, children, null) && current in all && current.state == Runnable && current != idle
      requires current in children && HasChild(Own(), pid)
      requires forall c :: c in Own() && Awaited(Own(), pid, c) ==> c.state != Zombie
      requires current !in children[current]
      modifies current`state, current`waiting, current`waitFor
      ensures States(all, idle, init, children, null) && current.state == Sleeping && current.waitFor == Some(pid)
      ensures var a := old(ViewOf());
        ViewOf() == Put(a, current, Mine(a).(state := Sleeping, waitFor := Some(pid)))
    {
      hide Infos, InfoOf, Put, Mine, ViewOf;
      Doze(pid);
      ghost var c :| c in Own() && Awaited(Own(), pid, c);
      assert NoLostWakeup(current, children[current]);
      forall p | p in all && p != current ensures NoLostWakeup(p, children[p]) {
        assert old(NoLostWakeup(p, children[p]));
      }
    }

    /** The process is out of do_wait. */
    method Leave()
      requires States(all, idle, init, children, null) && current in all && current.state == Runnable
      modifies current`waitFor
      ensures States(all, idle, init, children, null) && current.waitFor == None
      ensures var a := old(ViewOf()); ViewOf() == Put(a, current, Mine(a).(waitFor := None))
    {
      hide Infos;
      current.waitFor := None;
      OneChanged(all, current);
      forall p | p in all ensures NoLostWakeup(p, children[p]) && Settled(p, children[p]) {
        assert old(NoLostWakeup(p, children[p])) && old(Settled(p, children[p]));
      }
    }

    /** None of the children that are waited for is a zombie. */
    ghost predicate NoneToReap(cs: seq<Proc>, pid: int)
      reads cs
    {
      forall c :: c in cs && Awaited(cs, pid, c) ==> c.state != Zombie
    }

    method Fail()
      requires Valid()
      modifies current`waitFor
      ensures Valid() && current.waitFor == None
      ensures var a := old(ViewOf()); ViewOf() == Put(a, a.current, Mine(a).(waitFor := None))
    {
      hide Tables, Family, States, Infos, Put, Mine;
      OrderHere();
      BirthsHere();
      Leave();
    }

    /** What the view says of the children. */
    lemma ViewFacts(pid: int)
      requires Valid()
      ensures OwnOf(ViewOf()) == Own() && (NoneToReap(Own(), pid) ==> NoZombie(ViewOf(), pid))
      ensures forall c :: c in Own() && FirstZombie(Own(), pid, c) ==> Reapable(ViewOf(), pid, c)
      ensures forall c :: FirstZombie(Own(), pid, c) ==> c in Own()
    {
      hide Hashed, Births, PidAllocator.Valid, States, Siblings, Home;
      var a := ViewOf();
      forall c | c in Own() && FirstZombie(Own(), pid, c) ensures Reapable(a, pid, c) {
        if pid == 0 {
          var i :| ZombieAt(Own(), i, c);
          assert YoungestZombie(a, i, c);
        }
      }
    }

    /** `do_wait` from `repeat` on; `who` is the child that is reaped. */
    method Wait(pid: int) returns (r: WaitResult, ghost who: Proc)
      requires Valid() && current != idle
      modifies this`current, this`procList, this`hashList, this`nrProcess, this`all, this`children
      modifies all`cptr, all`yptr, all`optr, all`needResched, all`runs, current`state, current`waiting, current`waitFor
      ensures r.Reaped? ==> current == old(current) && r.code == who.exitCode
      ensures r.Reaped? ==> old(allocated(who)) && old(FirstZombie(Own(), pid, who)) && who in old(procList)
      ensures r.Reaped? ==> all == old(all) - {who} && procList == Excluding(old(procList), who)
      ensures !r.Reaped? ==> old(NoneToReap(Own(), pid))
      ensures r.BadProc? <==> !HasChild(old(Own()), pid)
      ensures r.BadProc? ==> current == old(current)
      ensures r.Blocked? ==> old(current).state == Sleeping && old(current).waitFor == Some(pid)
      ensures !r.Reaped? ==> procList == old(procList) && children == old(children) && all == old(all)
      ensures Valid() && Waits(old(ViewOf()), pid, ViewOf(), idle)
    {
      hide Births, PidAllocator.Valid, Hashed, Home, Siblings, Chosen, States, FirstZombie, HasChild, Family, Tables,
           Infos, Gone, Put, Switched, Reapable, NoZombie, Excluding, Waits, ViewOf;
      ghost var a := ViewOf();
      who := current;
      ViewFacts(pid);
      CurrentSettled();
      var haskid, found := SearchChild(pid);
      if found != null {
        FoundFacts(pid, found);
        assert found != idle && found != init;
        ReapFound(found);
        WaitsReap(a, pid, found, idle);
        return Reaped(found.exitCode), found;
      }
      if haskid {
        Block(pid);
        WaitsSleep(a, pid, ViewOf(), idle);
        return Blocked, who;
      }
      Fail();
      WaitsFail(a, pid, idle);
      return BadProc, who;
    }

    lemma CurrentHere()
      requires Tables()
      ensures current in all
    {
    }

    method ReapFound(proc: Proc)
      requires Valid() && proc in all && proc != idle && proc.state == Zombie && proc.parent == current
      modifies this`procList, this`hashList, this`nrProcess, this`all, this`children
      modifies all`cptr, all`yptr, all`optr, current`waitFor
      ensures Valid() && all == old(all) - {proc}
      ensures proc in old(procList) && procList == Excluding(old(procList), proc)
      ensures proc != current ==> ViewOf() == Gone(old(ViewOf()), proc)
    {
      hide Tables, Family, States, Infos, Excluding, ViewOf;
      ghost var a := ViewOf();
      ViewIs();
      Reap(proc);
      CurrentHere();
      ghost var b := ViewOf();
      Leave();
      if proc != current {
        GoneLast(a, b, ViewOf(), proc);
      }
    }

    method Block(pid: int)
      requires Valid() && current != idle && current in children
      requires HasChild(Own(), pid)
      requires forall c :: c in Own() && Awaited(Own(), pid, c) ==> c.state != Zombie
      modifies this`current, all`needResched, all`runs, current`state, current`waiting, current`waitFor
      ensures Valid() && old(current).state == Sleeping && old(current).waitFor == Some(pid)
      ensures var a := old(ViewOf());
        Switched(Put(a, a.current, Mine(a).(state := Sleeping, waitFor := Some(pid))), ViewOf(), idle)
    {
      hide Births, PidAllocator.Valid, Hashed, Family, States, Chosen, Infos, Switched;
      NotOwnChild();
      Sleep(pid);
      GiveUp();
    }

    lemma IdleReady()
      requires States(all, idle, init, children, null)
      ensures idle.state == Runnable
    {
    }

    lemma NotOwnChild()
      requires Valid() && current != idle
      ensures current in children && current !in children[current]
    {
      hide Births, PidAllocator.Valid, Hashed, States, Sibling;
      FamilyFacts(all, idle, children, null);
      assert Home(all, children, current);
      if current in children[current] { ChildOf(current, children[current], false, current); }
    }

    lemma FoundFacts(pid: int, c: Proc)
      requires Valid() && current in children && FirstZombie(Own(), pid, c)
      ensures c in all && c != idle && c.state == Zombie && c.parent == current && c != init
    {
      hide Births, PidAllocator.Valid, Hashed, Home, Sibling;
      FamilyFacts(all, idle, children, null);
      ChildOf(current, children[current], false, c);
    }

    /** The process is woken if it sleeps. */
    method Rouse(p: Proc)
      requires p in all && p.state != Zombie && (p.state == Sleeping <==> p.waiting)
      requires p.state == Sleeping || p.state == Runnable
      modifies p`state, p`waiting
      ensures ViewOf() == Woken(old(ViewOf()), p) && p.state == Runnable && !p.waiting
    {
      hide Infos;
      if p.waiting {
        Wakeup(p);
        OneChanged(all, p);
      }
    }

    /** A process that slept is awake. */
    twostate lemma StatesAwake(new p: Proc, new exiting: Proc?)
      requires old(allocated(exiting)) && all == old(all) && children == old(children)
      requires old(States(all, idle, init, children, exiting))
      requires p in all && p != exiting && p.state == Runnable && !p.waiting && old(p.state) != Zombie
      requires forall q :: q in all ==> q.waitFor == old(q.waitFor)
      requires forall q :: q in all && q != p ==> q.state == old(q.state) && q.waiting == old(q.waiting)
      ensures States(all, idle, init, children, exiting)
    {
      forall q | q in all ensures NoLostWakeup(q, children[q]) && Settled(q, if q == exiting then [] else children[q]) {
        assert old(NoLostWakeup(q, children[q])) && old(Settled(q, if q == exiting then [] else children[q]));
      }
    }

    method Die(code: int)
      requires current in all
      modifies current`state, current`exitCode, current`waitFor
      ensures current.state == Zombie && current.exitCode == code && current.waitFor == None
      ensures var a := old(ViewOf());
        ViewOf() == Put(a, current, Mine(a).(state := Zombie, waitFor := None, code := code))
    {
      hide Infos;
      current.state := Zombie;
      current.exitCode, current.waitFor := code, None;
      OneChanged(all, current);
    }

    /** The process becomes a zombie, and its parent is woken if it waits. */
    method BecomeZombie(code: int)
      requires Valid() && current != idle && current != init
      modifies current`state, current`exitCode, current`waitFor, current.parent`state, current.parent`waiting
      ensures States(all, idle, init, children, current) && current.state == Zombie && current.exitCode == code
      ensures current.parent != null && current.parent.state != Sleeping
      ensures var a := old(ViewOf());
        ViewOf() == Woken(Put(a, current, Mine(a).(state := Zombie, waitFor := None, code := code)), current.parent)
    {
      hide Births, PidAllocator.Valid, Hashed, Home, Siblings, States, Infos, Put, Woken, Mine, ViewOf;
      FamilyFacts(all, idle, children, null);
      ParentThere();
      InitThere();
      CurrentSettled();
      ParentSettled();
      forall q | q in all && q != current.parent ensures current !in children[q] {
        if current in children[q] { ChildOf(q, children[q], false, current); }
      }
      Die(code);
      Rouse(current.parent);
      StatesDied(current, current.parent);
    }

    /** A process has become a zombie, and its parent is awake. */
    twostate lemma StatesDied(new me: Proc, new q: Proc)
      requires all == old(all) && children == old(children) && old(States(all, idle, init, children, null))
      requires init in all && me in all && me != idle && me != init && q in all && q != me
      requires me.state == Zombie && !me.waiting && me.waitFor == None && q.state == Runnable && !q.waiting
      requires old(allocated(q)) && q.waitFor == old(q.waitFor)
      requires forall p :: p in all && p != me && p != q ==>
        p.state == old(p.state) && p.waiting == old(p.waiting) && p.waitFor == old(p.waitFor)
      requires forall p :: p in all && p != q ==> me !in children[p]
      ensures States(all, idle, init, children, me)
    {
      forall p | p in all && p != me ensures Settled(p, children[p]) && NoLostWakeup(p, children[p]) {
        assert old(Settled(p, children[p])) && old(NoLostWakeup(p, children[p]));
      }
    }

    lemma ParentThere()
      requires Valid() && current != idle
      ensures current.parent != null && current.parent in all && current.parent != current
      ensures current.parent in children && current in children[current.parent]
    {
      hide Births, PidAllocator.Valid, Hashed, States, Siblings;
      assert Home(all, children, current);
    }

    /** A process with a child sleeps or is runnable. */
    lemma ParentSettled()
      requires Valid() && current != idle
      ensures current.parent != null && current.parent in all
      ensures var q := current.parent; if q.waiting then q.state == Sleeping else q.state == Runnable
    {
      hide Births, PidAllocator.Valid, Hashed, Siblings;
      ParentThere();
      assert Home(all, children, current);
      assert Settled(current.parent, children[current.parent]);
    }

    /** The links and the wakeup of a round of the loop in `do_exit`. */
    method PassOn() returns (proc: Proc)
      requires Family(all, idle, children, current) && States(all, idle, init, children, current)
      requires Births(all, idle, init, births) && current in all && current != idle && current != init
      requires current.cptr != null && init.parent == idle
      modifies all`cptr, all`yptr, all`optr, all`parent, init`state, init`waiting
      ensures current in children && init in children && children[current] != [] && proc == children[current][0]
      ensures init in all && init.parent == idle && (init.state == old(init.state) || init.state == Runnable)
      ensures Members(all, idle, Moved(children, current, init)) && States(all, idle, init, children, current)
      ensures Family(all, idle, Moved(children, current, init), current)
      ensures init.state != Zombie && (init.state == Sleeping ==> proc.state != Zombie)
      ensures var a := old(ViewOf()); ViewOf() == if At(a, proc).state == Zombie then Woken(a, init) else a
    {
      hide Births, Family, States, Members, Infos, Woken, At, Moved, ViewOf;
      proc := HandOver();
      RouseFor(proc);
    }

    /** A round of the loop in `do_exit`. */
    method Disown()
      requires Family(all, idle, children, current) && States(all, idle, init, children, current)
      requires Births(all, idle, init, births) && current in all && current != idle && current != init
      requires current.state == Zombie && current.cptr != null && init.parent == idle
      modifies this`children, all`cptr, all`yptr, all`optr, all`parent, init`state, init`waiting
      ensures Family(all, idle, children, current) && States(all, idle, init, children, current)
      ensures current in old(children) && init in old(children) && old(children)[current] != []
      ensures children == Moved(old(children), current, init)
      ensures init.parent == idle && (init.state == old(init.state) || init.state == Runnable)
      ensures ViewOf() == HandedOver(old(ViewOf()), current, init)
    {
      hide Births, Family, States, Members, Infos, Woken, At, Moved, ViewOf;
      ViewIs();
      var proc := PassOn();
      ViewIs();
      StatesMoved(all, idle, init, children, current, init);
      children := Moved(children, current, init);
      ViewIs();
    }

    /** A zombie is to be reaped by its new parent. */
    method RouseFor(proc: Proc)
      requires States(all, idle, init, children, current) && proc in all && proc != init
      requires init in all && init in children && init != current
      modifies init`state, init`waiting
      ensures States(all, idle, init, children, current) && init.state != Zombie
      ensures init.state == old(init.state) || init.state == Runnable
      ensures init.state == Sleeping ==> proc.state != Zombie
      ensures var a := old(ViewOf()); ViewOf() == if At(a, proc).state == Zombie then Woken(a, init) else a
    {
      hide States, Infos, Woken, At;
      AtHere(proc);
      InitSettled();
      if proc.state == Zombie {
        RouseInit();
      }
    }

    lemma AtHere(p: Proc)
      requires p in all
      ensures At(ViewOf(), p) == InfoOf(p)
    {
    }

    lemma InitSettled()
      requires States(all, idle, init, children, current) && init in all && init != current && init in children
      ensures if init.waiting then init.state == Sleeping else init.state == Runnable
    {
      assert Settled(init, children[init]);
    }

    /** The links of the first child are changed. */
    method HandOver() returns (proc: Proc)
      requires Family(all, idle, children, current) && Births(all, idle, init, births)
      requires current in all && current != idle && current != init && current.cptr != null && init.parent == idle
      modifies all`cptr, all`yptr, all`optr, all`parent
      ensures current in children && init in children && children[current] != [] && proc == children[current][0]
      ensures init in all && current != init && proc in all && proc != init && init.parent == idle
      ensures ViewOf() == old(ViewOf())
      ensures Members(all, idle, Moved(children, current, init))
      ensures Family(all, idle, Moved(children, current, init), current)
    {
      hide Sibling, Home, Siblings, Members;
      OlderThanChildren();
      FamilyFacts(all, idle, children, current);
      InitThere();
      proc := MoveChild(current, init, all, idle, children);
      FamilyMembers(all, idle, Moved(children, current, init), current);
    }

    lemma OlderThanChildren()
      requires Family(all, idle, children, current) && Births(all, idle, init, births) && current in all
      requires current != idle && init.parent == idle
      ensures current in children && forall x :: x in children[current] ==> init.birth < x.birth && x != init
    {
      hide Sibling, Home;
      FamilyFacts(all, idle, children, current);
      forall x | x in children[current] ensures x != init { ChildOf(current, children[current], true, x); }
    }

    method RouseInit()
      requires States(all, idle, init, children, current) && init in all && init != current
      requires if init.waiting then init.state == Sleeping else init.state == Runnable
      modifies init`state, init`waiting
      ensures States(all, idle, init, children, current) && init.state == Runnable
      ensures ViewOf() == Woken(old(ViewOf()), init)
    {
      hide Infos, Woken, States;
      Rouse(init);
      StatesAwake(init, current);
    }

    lemma BirthsHere()
      requires Tables()
      ensures Births(all, idle, init, births) && init.parent == idle && current in all
    {
    }

    method Orphan(ghost parent: Proc)
      requires Tables() && Family(all, idle, children, null) && States(all, idle, init, children, current)
      requires current != idle && current != init && current.state == Zombie && parent.state != Sleeping
      modifies this`children, all`cptr, all`yptr, all`optr, all`parent, init`state, init`waiting
      ensures Tables() && Family(all, idle, children, null) && States(all, idle, init, children, null)
      ensures current in old(children) && init in old(children) && children == Adopted(old(children), current, init)
      ensures parent.state != Sleeping && current.state == Zombie
      ensures ViewOf() == Orphaned(old(ViewOf()), current, init)
    {
      hide Tables, Births, Family, States, Adopted, Orphaned, Infos;
      BirthsHere();
      StaleToo(all, idle, children, current);
      DisownAll(parent);
      SameTables();
    }

    /** What `do_exit` does before it gives up the processor. */
    method Perish(code: int)
      requires Valid() && current != idle && current != init
      modifies this`children, all`cptr, all`yptr, all`optr, all`parent, all`state, all`waiting
      modifies current`exitCode, current`waitFor
      ensures Tables() && Family(all, idle, children, null) && States(all, idle, init, children, null)
      ensures current.state == Zombie && current.exitCode == code
      ensures current in old(children) && init in old(children)
      ensures children == Adopted(old(children), current, init)
      ensures old(current.parent) != null && old(current.parent).state != Sleeping
      ensures var q: Proc := old(current.parent);
        && q in old(children) && current in old(children)[q]
        && ViewOf() == Dead(old(ViewOf()), code, q, init)
    {
      hide Tables, Births, Family, States, Adopted, Infos, Dead, Orphaned, Woken, Put, ViewOf;
      ViewIs();
      ghost var a, q := ViewOf(), current.parent;
      ParentThere();
      NotOwnChild();
      BirthsHere();
      InitThere();
      FamilyFacts(all, idle, children, null);
      BecomeZombie(code);
      Orphan(q);
      DeadView(a, code, q, init);
    }

    /** `do_exit`, whose panics stop the machine. */
    method Exit(code: int) returns (r: ExitResult)
      requires Valid()
      modifies this`current, this`children, all`cptr, all`yptr, all`optr, all`parent, all`state, all`waiting
      modifies all`needResched, all`runs, current`exitCode, current`waitFor
      ensures r.Panic? <==> old(current) == idle || old(current) == init
      ensures r.Panic? ==> unchanged(this) && unchanged(all)
      ensures r.Exited? ==> old(current).state == Zombie && old(current).exitCode == code
      ensures r.Exited? ==> old(current) in old(children) && init in old(children) && old(current) != init
      ensures r.Exited? ==> children == Adopted(old(children), old(current), init)
      ensures r.Exited? ==> old(current.parent) != null && old(current.parent).state != Sleeping
      ensures r.Exited? ==> Dies(old(ViewOf()), code, ViewOf(), idle, init)
      ensures Valid()
    {
      hide Tables, Family, States, Adopted, Infos, Switched, Dead, Dies, ViewOf;
      ViewIs();
      if current == idle || current == init {
        return Panic;
      }
      ghost var a, q := ViewOf(), current.parent;
      Perish(code);
      GiveUp();
      DiesBy(a, code, q, ViewOf(), idle, init);
      return Exited;
    }

    /** The loop of `do_exit`. */
    method DisownAll(ghost parent: Proc)
      requires Family(all, idle, children, current) && States(all, idle, init, children, current)
      requires Births(all, idle, init, births) && current in all && current != idle && current != init
      requires current.state == Zombie && init.parent == idle && parent.state != Sleeping
      modifies this`children, all`cptr, all`yptr, all`optr, all`parent, init`state, init`waiting
      ensures Family(all, idle, children, null) && States(all, idle, init, children, null)
      ensures current in old(children) && init in old(children) && children == Adopted(old(children), current, init)
      ensures init.parent == idle && parent.state != Sleeping && current.state == Zombie
      ensures ViewOf() == Orphaned(old(ViewOf()), current, init)
    {
      hide Births, Family, States, Infos, HandedOver;
      ghost var c := current;
      InitThere();
      FamilyFacts(all, idle, children, c);
      while current.cptr != null
        invariant Family(all, idle, children, c) && States(all, idle, init, children, c)
        invariant c.state == Zombie && init.parent == idle && parent.state != Sleeping
        invariant c in children && init in children && Adopted(children, c, init) == Adopted(old(children), c, init)
        invariant Orphaned(ViewOf(), c, init) == Orphaned(old(ViewOf()), c, init)
        decreases |children[c]|
      {
        Disown();
      }
      Childless(c);
    }

    lemma Childless(c: Proc)
      requires Family(all, idle, children, c) && States(all, idle, init, children, c) && c in all && c.cptr == null
      requires init in all && c != init
      ensures c in children && children[c] == [] && Family(all, idle, children, null)
      ensures States(all, idle, init, children, null)
    {
      hide NoLostWakeup, Home;
      FamilyFacts(all, idle, children, c);
      assert Siblings(c, children[c], true);
    }

    /** `do_kill` */
    method Kill(pid: int) returns (r: KillResult, ghost p: Proc)
      requires Valid()
      modifies all`exiting, all`state, all`waiting
      ensures Valid()
      ensures r.NoSuchProc? <==> pid !in Pids(procList)
      ensures !r.NoSuchProc? ==> p in procList && p.pid == pid && p.exiting
      ensures !r.NoSuchProc? ==> old(allocated(p)) && (r.AlreadyKilled? <==> old(p.exiting))
      ensures r.Killed? ==> p.state == if old(p.state) == Sleeping then Runnable else old(p.state)
      ensures r.AlreadyKilled? ==> p.state == old(p.state)
      ensures !r.NoSuchProc? ==> forall q :: q in all && q != p ==> q.state == old(q.state) && q.exiting == old(q.exiting)
      ensures r.NoSuchProc? ==> forall q :: q in all ==> q.state == old(q.state) && q.exiting == old(q.exiting)
      ensures Kills(old(ViewOf()), pid, ViewOf())
    {
      hide Tables, Family, States, Infos, Put, Woken, At, Kills, Hashed, Pids;
      ghost var a := ViewOf();
      HashedHere();
      p := idle;
      var proc := Find(hashList, pid, procList, idle, all);
      if proc == null {
        NoneKilled(pid);
        KillsNone(a, pid);
        return NoSuchProc, p;
      }
      p := proc;
      AllListed();
      AtHere(p);
      AllSettled(p);
      KillsOne(a, p);
      if proc.exiting {
        return AlreadyKilled, p;
      }
      MarkAndWake(proc);
      return Killed, p;
    }

    method MarkAndWake(p: Proc)
      requires Valid() && p in all && (p.state == Sleeping <==> p.waiting)
      modifies p`exiting, p`state, p`waiting
      ensures Valid() && p.exiting && p.state == if old(p.state) == Sleeping then Runnable else old(p.state)
      ensures var a := old(ViewOf()); ViewOf() == Woken(Put(a, p, At(a, p).(killed := true)), p)
    {
      hide Tables, Family, States, Infos, Put, Woken, At;
      Mark(p);
      AtHere(p);
      if p.waiting {
        WakeOne(p);
      } else {
        NotWoken(ViewOf(), p);
      }
    }

    lemma HashedHere()
      requires Valid()
      ensures Hashed(hashList, procList, idle, all) && States(all, idle, init, children, null)
    {
    }

    method Mark(p: Proc)
      requires Valid() && p in all
      modifies p`exiting
      ensures Valid() && p.exiting
      ensures var a := old(ViewOf()); ViewOf() == Put(a, p, At(a, p).(killed := true))
    {
      hide Infos, Tables, Family, States;
      p.exiting := true;
      OneChanged(all, p);
    }

    lemma AllSettled(p: Proc)
      requires Valid() && p in all
      ensures p.state == Sleeping <==> p.waiting
    {
      hide Hashed, Births, Family;
      assert Settled(p, children[p]);
    }

    method WakeOne(p: Proc)
      requires Valid() && p in all && p.state == Sleeping && p.waiting
      modifies p`state, p`waiting
      ensures Valid() && p.state == Runnable && ViewOf() == Woken(old(ViewOf()), p)
    {
      hide Tables, Family, States, Infos, Woken, ViewOf;
      HashedHere();
      Rouse(p);
      StatesAwake(p, null);
    }

    lemma NoneKilled(pid: int)
      requires pid !in Pids(procList)
      ensures forall q :: q in procList ==> q.pid != pid
    {
      forall q | q in procList ensures q.pid != pid {
        var i :| 0 <= i < |procList| && procList[i] == q;
        assert Pids(procList)[i] == q.pid;
      }
    }

    lemma AllListed()
      requires Valid()
      ensures current in all && nrProcess == |procList| + 1 && forall p :: p in procList ==> p in all
    {
      hide Births, PidAllocator.Valid, Family, States;
    }

    /** A process that was switched to inside `do_wait` goes on from there: it exits if it was killed, and
        otherwise searches again. */
    method Resume() returns (halted: bool, r: Option<WaitResult>, ghost who: Proc)
      requires Valid() && current.waitFor.Some?
      modifies this, all
      ensures Valid() && all <= old(all) && (halted ==> unchanged(this) && unchanged(all))
      ensures halted <==> old(current) == init && old(current.exiting)
      ensures forall p :: p in all ==> p.exiting == old(p.exiting)
      ensures r.None? <==> old(current.exiting)
      ensures !(r.Some? && r.value.Reaped?) ==> procList == old(procList)
      ensures r.Some? && !r.value.Reaped? ==> old(NoneToReap(Own(), current.waitFor.value))
      ensures r.None? && !halted ==> old(current).state == Zombie && old(current).exitCode == -E_KILLED
      ensures r.Some? ==> (r.value.BadProc? <==> !HasChild(old(Own()), old(current.waitFor.value)))
      ensures r.Some? && r.value.Blocked? ==>
        old(current).state == Sleeping && old(current).waitFor == old(current.waitFor)
      ensures r.Some? && !r.value.Blocked? ==> current == old(current)
      ensures r.Some? && r.value.Reaped? ==>
        && old(allocated(who)) && old(FirstZombie(Own(), current.waitFor.value, who)) && r.value.code == who.exitCode
        && all == old(all) - {who} && who in old(procList) && procList == Excluding(old(procList), who)
      ensures !halted ==> Continues(old(ViewOf()), ViewOf(), idle, init)
    {
      hide Tables, Family, States, Adopted, FirstZombie, HasChild, Waits, Dies, Infos, NoneToReap, Excluding;
      IdleNotWaiting();
      AtHere(current);
      halted, r, who := false, None, current;
      if current.exiting {
        var e := Exit(-E_KILLED);
        halted := e.Panic?;
      } else {
        var w;
        w, who := Wait(current.waitFor.value);
        r := Some(w);
      }
    }

    lemma IdleNotWaiting()
      requires Valid()
      ensures idle.waitFor == None && current in all && idle != init && init in all
    {
      hide Hashed, Family;
    }

    /** The end of `trap`, back to user mode. */
    method ReturnToUser()
      requires Valid() && current != idle && current != init
      modifies this, all
      ensures Valid() && all == old(all) && Returns(old(ViewOf()), ViewOf(), idle, init)
      ensures old(current.exiting) ==> old(current).state == Zombie && old(current).exitCode == -9
      ensures !old(current.exiting) ==> old(current).state == old(current.state) && !old(current).needResched
      ensures !old(current.exiting) && !old(current.needResched) ==> current == old(current)
      ensures !old(current.exiting) && old(current.needResched) ==> Switched(old(ViewOf()), ViewOf(), idle)
    {
      hide Tables, Family, States, Adopted, Infos, Switched, Dies;
      IdleNotWaiting();
      AtHere(current);
      OrderHere();
      if current.exiting {
        var r := Exit(-E_KILLED);
      } else if current.needResched {
        GiveUp();
      }
    }

    lemma OrderHere()
      requires Valid()
      ensures Tables() && Family(all, idle, children, null) && States(all, idle, init, children, null)
    {
    }

    method Request()
      requires Valid()
      modifies current`needResched
      ensures Valid() && current.needResched
      ensures var a := old(ViewOf()); ViewOf() == Put(a, a.current, Mine(a).(resched := true))
    {
      hide Family, States, Infos, Hashed, Births, PidAllocator.Valid;
      current.needResched := true;
      OneChanged(all, current);
    }

    /** The call itself. */
    method Serve(call: Call) returns (halted: bool)
      requires Valid() && Makes(ViewOf(), idle)
      modifies this, all, pids
      ensures Valid() && fresh(all - old(all))
      ensures halted <==> old(current) == init && call.Exit?
      ensures if halted then ViewOf() == old(ViewOf()) else Serves(old(ViewOf()), call, ViewOf(), idle, init)
    {
      hide Tables, Family, States, Adopted, Infos, Switched, Dies, Waits, Kills, Forks, HasChild, FirstZombie, NoneToReap,
           Pids, WithChild, Excluding;
      OrderHere();
      halted := false;
      match call {
        case Fork(memory) => var r := Fork(memory);
        case Exit(code) => var r := Exit(code); halted := r.Panic?;
        case Wait(pid, storeOk) =>
          if storeOk {
            var r;
            ghost var who;
            r, who := Wait(pid);
          }
        case Kill(pid) =>
          var r;
          ghost var p;
          r, p := Kill(pid);
        case Yield => Request();
        case Reschedule =>
          if current == init {
            GiveUp();
          }
      }
    }

    /** A `do_wait` is finished, or the idle process looks for work. */
    method Continue(ghost call: Call) returns (halted: bool)
      requires Valid() && !Makes(ViewOf(), idle)
      modifies this, all
      ensures Valid() && all <= old(all)
      ensures halted <==> Halts(old(ViewOf()), init, call)
      ensures if halted then ViewOf() == old(ViewOf()) else Continues(old(ViewOf()), ViewOf(), idle, init)
    {
      hide Tables, Family, States, Infos, Switched, Dies, Waits, HasChild, FirstZombie, NoneToReap, Excluding;
      IdleNotWaiting();
      AtHere(current);
      OrderHere();
      halted := false;
      if current.waitFor.Some? {
        var r;
        ghost var who;
        halted, r, who := Resume();
      } else {
        GiveUp();
      }
    }

    lemma RootedHere()
      requires Valid()
      ensures Rooted(ViewOf(), idle) && init in children && init != idle && At(ViewOf(), idle).waitFor.None?
    {
      hide Hashed, Births, PidAllocator.Valid, Home, Siblings, Settled, NoLostWakeup;
      InitThere();
    }

    /** A call of the running process, or what is left of its last one; the idle process looks for
        work. `mid` is how things stand when the process goes back to user mode. */
    method Step(call: Call) returns (halted: bool, ghost mid: View)
      requires Valid()
      modifies this, all, pids
      ensures Valid() && fresh(all - old(all))
      ensures halted <==> Halts(old(ViewOf()), init, call)
      ensures if halted then ViewOf() == old(ViewOf())
              else Moves(old(ViewOf()), call, mid, ViewOf(), idle, init)
      // a user process that yields gives way, and none goes on with need_resched set
      ensures !halted && old(current) != idle && old(current) != init ==>
        var a, i := old(ViewOf()), At(ViewOf(), old(current));
        && (call.Yield? && Mine(a).waitFor.None? && !Mine(a).killed ==> Switched(a, ViewOf(), idle))
        && (i.state == Zombie || i.waitFor.Some? || !i.resched)
      ensures OnlyChild(old(ViewOf()), idle, init) ==> OnlyChild(ViewOf(), idle, init)
    {
      hide Tables, Family, States, Infos, Serves, Continues, Returns, OnlyChild, Rooted, Switched;
      IdleNotWaiting();
      AtHere(current);
      RootedHere();
      var me := current;
      ghost var a := ViewOf();
      if me != idle && me.waitFor.None? {
        halted := Serve(call);
      } else {
        halted := Continue(call);
      }
      mid := ViewOf();
      IdleNotWaiting();
      AtHere(current);
      RootedHere();
      if !halted && current == me && me != idle && me != init && me.waitFor.None? {
        ReturnToUser();
      }
      if !halted {
        StepKeeps(a, call, mid, ViewOf(), idle, init);
      }
    }

    /** Any run of the kernel keeps the tree, the lists and the states in order, and wakes every
        process that waits for a zombie; step by step every process fares as the calls say. It goes on
        exactly until the first process exits or is found killed. */
    method Run(calls: seq<Call>) returns (halted: bool, done: nat, ghost views: seq<View>, ghost mids: seq<View>)
      requires Valid()
      modifies this, all, pids
      ensures Valid() && done <= |calls| && |views| == done + 1 && |mids| == done
      ensures views[0] == old(ViewOf()) && views[done] == ViewOf()
      ensures forall k :: 0 <= k < done ==>
        Moves(views[k], calls[k], mids[k], views[k + 1], idle, init) && !Halts(views[k], init, calls[k])
      ensures halted <==> done < |calls|
      ensures halted ==> Halts(ViewOf(), init, calls[done])
      ensures OnlyChild(old(ViewOf()), idle, init) ==> OnlyChild(ViewOf(), idle, init)
    {
      hide Tables, Family, States, Moves, Halts, Infos, OnlyChild;
      halted, done, views, mids := false, 0, [ViewOf()], [];
      while done < |calls|
        invariant done <= |calls| && |views| == done + 1 && |mids| == done && !halted
        invariant Valid() && fresh(all - old(all))
        invariant OnlyChild(old(ViewOf()), idle, init) ==> OnlyChild(ViewOf(), idle, init)
        invariant views[0] == old(ViewOf()) && views[done] == ViewOf()
        invariant forall k :: 0 <= k < done ==>
          Moves(views[k], calls[k], mids[k], views[k + 1], idle, init) && !Halts(views[k], init, calls[k])
      {
        ghost var mid;
        halted, mid := Step(calls[done]);
        if halted {
          break;
        }
        done, views, mids := done + 1, views + [ViewOf()], mids + [mid];
      }
    }
  }

  /** From the start: in whatever the processes do, idle has no child but the first process. */
  method Boot(calls: seq<Call>)
    returns (k: Kernel, halted: bool, done: nat, ghost views: seq<View>, ghost mids: seq<View>)
    ensures fresh(k) && k.Valid() && OnlyChild(k.ViewOf(), k.idle, k.init)
    ensures done <= |calls| && |views| == done + 1 && |mids| == done && views[done] == k.ViewOf()
    ensures forall j :: 0 <= j < done ==>
      Moves(views[j], calls[j], mids[j], views[j + 1], k.idle, k.init) && !Halts(views[j], k.init, calls[j])
    ensures halted <==> done < |calls|
  {
    hide Kernel.Valid, Moves, Halts, Infos;
    k := new Kernel();
    assert OnlyChild(k.ViewOf(), k.idle, k.init);
    halted, done, views, mids := k.Run(calls);
  }

  /** All processes but idle and the first are younger descendants of the first. */
  lemma {:induction false} NobodyElse(k: Kernel, p: Proc)
    requires k.Valid() && OnlyChild(k.ViewOf(), k.idle, k.init) && p in k.all
    requires k.init in k.children && k.children[k.init] == []
    ensures p == k.idle || p == k.init
    decreases p.birth
  {
    hide Hashed, Births, PidAllocator.Valid, States, Siblings;
    if p != k.idle {
      assert Home(k.all, k.children, p);
      NobodyElse(k, p.parent);
    }
  }

  /** The assertions at the end of `init_main`: when its do_wait finds no child, only the idle process and
      the first are left. */
  lemma InitAlone(k: Kernel)
    requires k.Valid() && OnlyChild(k.ViewOf(), k.idle, k.init)
    requires k.init in k.children && !HasChild(k.children[k.init], 0)
    ensures k.init.cptr == null && k.init.yptr == null && k.init.optr == null
    ensures k.nrProcess == 2 && k.procList == [k.init]
  {
    hide Births, PidAllocator.Valid, States, Home, PidHash;
    var cs := k.children[k.init];
    AnyChild(cs);
    assert forall p :: p in k.all ==> p == k.idle || p == k.init by {
      forall p | p in k.all ensures p == k.idle || p == k.init { NobodyElse(k, p); }
    }
    k.InitThere();
    assert Siblings(k.init, cs, false) && Siblings(k.idle, [k.init], false);
    assert Sibling(k.idle, [k.init], 0, false);
    OnlyListed(k.procList, k.all, k.idle, k.init);
  }

  lemma AnyChild(cs: seq<Proc>)
    ensures HasChild(cs, 0) <==> cs != []
  {
    assert cs != [] ==> Awaited(cs, 0, cs[0]);
  }

  lemma OnlyListed(list: seq<Proc>, all: set<Proc>, idle: Proc, init: Proc)
    requires Listed(list, all, idle) && init in all && init != idle && forall p :: p in all ==> p == idle || p == init
    ensures list == [init]
  {
    assert init in list;
    var i :| 0 <= i < |list| && list[i] == init;
    OnlyAt(list, all, idle, init, i, 0);
    OnlyAt(list, all, idle, init, i, |list| - 1);
  }

  lemma OnlyAt(list: seq<Proc>, all: set<Proc>, idle: Proc, init: Proc, i: nat, j: nat)
    requires Listed(list, all, idle) && forall p :: p in all ==> p == idle || p == init
    requires i < |list| && list[i] == init && j < |list|
    ensures j == i
  {
    assert list[j] in list && list[j].pid == list[i].pid;
  }

  /** No lost wakeup: a process asleep in `do_wait` has no zombie among the children it waits for. */
  lemma NoZombieAwaited(k: Kernel, p: Proc, c: Proc)
    requires k.Valid() && p in k.all && p in k.children && p.state == Sleeping
    requires c in k.children[p]
    ensures p.waitFor.Some? && (Awaited(k.children[p], p.waitFor.value, c) ==> c.state != Zombie)
  {
    hide Births, PidAllocator.Valid, Home, Siblings;
    assert Settled(p, k.children[p]) && NoLostWakeup(p, k.children[p]);
    if p.waitFor.value != 0 && c.pid == p.waitFor.value {
      ghost var d :| d in k.children[p] && d.pid == p.waitFor.value && d.state != Zombie;
      OnePid(k.procList, k.all, k.idle, c);
      assert d == c;
    }
  }

  /** All processes descend from the idle one. */
  lemma OneTree(k: Kernel, p: Proc)
    requires k.Valid() && p in k.all
    ensures forall c :: c in k.all && c != k.idle ==> Home(k.all, k.children, c)
    ensures k.idle in k.all && Eldest(k.all, k.idle, k.children, p) == k.idle
  {
    hide Hashed, Births, PidAllocator.Valid, States, Siblings;
  }
}
