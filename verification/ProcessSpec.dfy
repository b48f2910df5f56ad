/** What each call does to the processes of Lab5 (kern/process/proc.c, kern/schedule/sched.c), on values:
    the current process, the list, who is whose child, and what the descriptors say. */
module ProcessSpec {
  import opened Options
  import opened Pid
  import opened ProcTree
  import opened Seqs

  const E_KILLED: int := 9

  /** What a process asks of the kernel when it runs; only kernel threads call `schedule` themselves. */
  datatype Call =
    | Fork(memory: bool)
    | Exit(code: int)
    | Wait(pid: int, storeOk: bool)
    | Kill(pid: int)
    | Yield
    | Reschedule

  function Pids(list: seq<Proc>): (r: seq<int>)
    ensures |r| == |list| && forall i :: 0 <= i < |list| ==> r[i] == list[i].pid
  {
    seq(|list|, i requires 0 <= i < |list| => list[i].pid)
  }

  // ---------- the scan of the scheduler ----------

  /** Position on the circular list, with the head at 0, that is `j` places after `from`. */
  function After(n: nat, from: nat, j: nat): (r: nat)
    requires from <= n && 1 <= j <= n + 1
    ensures r <= n
  {
    if from + j <= n then from + j else from + j - n - 1
  }

  /** Going once round the list passes every position. */
  lemma RoundTrip(n: nat, from: nat, pos: nat) returns (j: nat)
    requires from <= n && pos <= n
    ensures 1 <= j <= n + 1 && After(n, from, j) == pos
  {
    j := if pos > from then pos - from else pos + n + 1 - from;
  }

  ghost predicate ReadyAt(list: seq<Proc>, ready: set<Proc>, pos: nat)
    requires pos <= |list|
  {
    pos > 0 && list[pos - 1] in ready
  }

  /** `next` is the first of the processes that are ready after position `from` on the circular list, or
      the idle process when there is none. */
  ghost predicate Chosen(list: seq<Proc>, ready: set<Proc>, from: nat, idle: Proc, next: Proc)
    requires from <= |list|
  {
    || (next == idle && forall p :: p in list ==> p !in ready)
    || exists j: nat :: 1 <= j <= |list| + 1 && FirstAt(list, ready, from, j, next)
  }

  ghost predicate FirstAt(list: seq<Proc>, ready: set<Proc>, from: nat, j: nat, next: Proc)
    requires from <= |list| && 1 <= j <= |list| + 1
  {
    && ReadyAt(list, ready, After(|list|, from, j)) && next == list[After(|list|, from, j) - 1]
    && forall i: nat :: 1 <= i < j ==> !ReadyAt(list, ready, After(|list|, from, i))
  }

  /** The scan starts behind the current process; for the idle process, at the head. */
  ghost predicate Starts(list: seq<Proc>, from: nat, current: Proc, idle: Proc) {
    from <= |list| && if current == idle then from == 0 else from > 0 && list[from - 1] == current
  }

  // ---------- children ----------

  /** The children of a process that `do_wait(pid)` is for. */
  ghost predicate Awaited(cs: seq<Proc>, pid: int, c: Proc) {
    c in cs && (pid == 0 || c.pid == pid)
  }

  ghost predicate HasChild(cs: seq<Proc>, pid: int) {
    exists c :: c in cs && Awaited(cs, pid, c)
  }

  /** All children of `from` have moved to `to`, one after the other. */
  function Adopted(children: map<Proc, seq<Proc>>, from: Proc, to: Proc): map<Proc, seq<Proc>>
    requires from in children && to in children && from != to
    decreases |children[from]|
  {
    if children[from] == [] then children else Adopted(Moved(children, from, to), from, to)
  }

  function Reversed(s: seq<Proc>): seq<Proc> {
    if s == [] then [] else Reversed(s[1..]) + [s[0]]
  }

  /** The orphans come first among the children of their new parent, in reverse order. */
  lemma {:induction false} AdoptedAll(children: map<Proc, seq<Proc>>, from: Proc, to: Proc)
    requires from in children && to in children && from != to
    ensures Adopted(children, from, to) == children[from := []][to := Reversed(children[from]) + children[to]]
    decreases |children[from]|
  {
    var cs := children[from];
    if cs == [] {
      assert Reversed(cs) + children[to] == children[to];
      assert children[from := []][to := children[to]] == children;
    } else {
      AdoptedAll(Moved(children, from, to), from, to);
      assert Reversed(cs[1..]) + ([cs[0]] + children[to]) == Reversed(cs) + children[to];
    }
  }

  // ---------- views ----------

  /** What a descriptor says: `waitFor` is the argument of the do_wait that the process is inside. */
  datatype Info = Info(state: State, waitFor: Option<int>, killed: bool, resched: bool, code: int)

  /** `last` is the pid that was handed out last. */
  datatype View = View(current: Proc, list: seq<Proc>, children: map<Proc, seq<Proc>>, info: map<Proc, Info>, last: int)

  ghost function At(v: View, p: Proc): Info {
    if p in v.info then v.info[p] else Info(Uninit, None, false, false, 0)
  }

  /** The current process's own. */
  ghost function Mine(v: View): Info { At(v, v.current) }

  ghost function OwnOf(v: View): seq<Proc> {
    if v.current in v.children then v.children[v.current] else []
  }

  ghost function Put(v: View, p: Proc, i: Info): View { v.(info := v.info[p := i]) }

  /** A process that sleeps is woken. */
  ghost function Woken(v: View, p: Proc): View {
    if At(v, p).state == Sleeping then Put(v, p, At(v, p).(state := Runnable)) else v
  }

  lemma NotWoken(v: View, p: Proc)
    requires At(v, p).state != Sleeping
    ensures Woken(v, p) == v
  {
  }

  ghost function Ready(v: View): set<Proc> {
    set p | p in v.list && At(v, p).state == Runnable
  }

  // ---------- calls ----------

  /** `schedule`: the first runnable process behind the current one runs next, or idle. */
  ghost predicate Switched(a: View, b: View, idle: Proc) {
    && b == Put(a, a.current, Mine(a).(resched := false)).(current := b.current)
    && exists from: nat :: Starts(a.list, from, a.current, idle) && Chosen(a.list, Ready(a), from, idle, b.current)
  }

  ghost function Begotten(a: View, p: Proc): View {
    View(a.current, [p] + a.list,
         if a.current in a.children then WithChild(a.children, a.current, p) else a.children,
         a.info[p := Info(Runnable, None, false, false, 0)], p.pid)
  }

  /** `do_fork`: a new process, the youngest child, with the next pid that nobody on the list has. */
  ghost predicate Forks(a: View, memory: bool, b: View) {
    if |a.list| + 1 >= MAX_PROCESS || !memory then b == a
    else exists p :: p in b.list && p !in a.info && NextFree(a.last, Pids(a.list), p.pid) && b == Begotten(a, p)
  }

  /** The first child moves; a zombie wakes its new parent. */
  ghost function HandedOver(a: View, from: Proc, to: Proc): View
    requires from in a.children && to in a.children && from != to && a.children[from] != []
  {
    (if At(a, a.children[from][0]).state == Zombie then Woken(a, to) else a).(children := Moved(a.children, from, to))
  }

  ghost function Orphaned(a: View, from: Proc, to: Proc): View
    requires from in a.children && to in a.children && from != to
    decreases |a.children[from]|
  {
    if a.children[from] == [] then a else Orphaned(HandedOver(a, from, to), from, to)
  }

  ghost predicate AnyZombie(a: View, cs: seq<Proc>) {
    exists c :: c in cs && At(a, c).state == Zombie
  }

  /** All children move, and the new parent is woken if one of them is a zombie. */
  lemma {:induction false} OrphanedAll(a: View, from: Proc, to: Proc)
    requires from in a.children && to in a.children && from != to
    ensures Orphaned(a, from, to)
         == (if AnyZombie(a, a.children[from]) then Woken(a, to) else a).(children := Adopted(a.children, from, to))
    decreases |a.children[from]|
  {
    var cs := a.children[from];
    if cs != [] {
      var b := HandedOver(a, from, to);
      OrphanedAll(b, from, to);
      assert cs == [cs[0]] + cs[1..];
      assert AnyZombie(a, cs) <==> At(a, cs[0]).state == Zombie || AnyZombie(a, cs[1..]);
      assert forall c :: At(b, c).state == Zombie <==> At(a, c).state == Zombie;
      assert AnyZombie(b, cs[1..]) <==> AnyZombie(a, cs[1..]);
    }
  }

  /** The process is a zombie, its parent and the new parent of its children are awake if they have a
      zombie to reap. */
  ghost function Dead(a: View, code: int, parent: Proc, init: Proc): View {
    var me := a.current;
    var v1 := Woken(Put(a, me, Mine(a).(state := Zombie, waitFor := None, code := code)), parent);
    var v2 := if AnyZombie(a, OwnOf(a)) then Woken(v1, init) else v1;
    if me in a.children && init in a.children && me != init then v2.(children := Adopted(a.children, me, init)) else v2
  }

  /** What the loop of `do_exit` makes of the zombie's children. */
  lemma DeadView(a: View, code: int, parent: Proc, init: Proc)
    requires a.current in a.children && init in a.children && a.current != init && a.current !in OwnOf(a)
    ensures var v := Woken(Put(a, a.current, Mine(a).(state := Zombie, waitFor := None, code := code)), parent);
      v.children == a.children && Orphaned(v, a.current, init) == Dead(a, code, parent, init)
  {
    hide Orphaned;
    var v := Woken(Put(a, a.current, Mine(a).(state := Zombie, waitFor := None, code := code)), parent);
    OrphanedAll(v, a.current, init);
    assert forall c :: c != a.current ==> (At(v, c).state == Zombie <==> At(a, c).state == Zombie);
    assert AnyZombie(v, OwnOf(a)) <==> AnyZombie(a, OwnOf(a));
  }

  /** `do_exit`, which does not come back. */
  ghost predicate Dies(a: View, code: int, b: View, idle: Proc, init: Proc) {
    exists q :: q in a.children && a.current in a.children[q] && Switched(Dead(a, code, q, init), b, idle)
  }

  lemma DiesBy(a: View, code: int, q: Proc, b: View, idle: Proc, init: Proc)
    requires q in a.children && a.current in a.children[q] && Switched(Dead(a, code, q, init), b, idle)
    ensures Dies(a, code, b, idle, init)
  {
  }

  ghost predicate NoZombie(a: View, pid: int) {
    forall c :: c in OwnOf(a) && Awaited(OwnOf(a), pid, c) ==> At(a, c).state != Zombie
  }

  /** The zombie that `do_wait(pid)` reaps: the youngest one, or the one with the pid. */
  ghost predicate Reapable(a: View, pid: int, z: Proc) {
    && Awaited(OwnOf(a), pid, z) && At(a, z).state == Zombie
    && (pid == 0 ==> exists i :: YoungestZombie(a, i, z))
  }

  ghost predicate YoungestZombie(a: View, i: int, z: Proc) {
    0 <= i < |OwnOf(a)| && OwnOf(a)[i] == z && forall j :: 0 <= j < i ==> At(a, OwnOf(a)[j]).state != Zombie
  }

  ghost function Gone(a: View, z: Proc): View {
    var me := a.current;
    View(me, Excluding(a.list, z), (a.children - {z})[me := Excluding(OwnOf(a), z)],
         (a.info - {z})[me := Mine(a).(waitFor := None)], a.last)
  }

  lemma GoneLast(a: View, b: View, c: View, z: Proc)
    requires b == View(a.current, Excluding(a.list, z), (a.children - {z})[a.current := Excluding(OwnOf(a), z)],
                       a.info - {z}, a.last)
    requires c == Put(b, b.current, Mine(b).(waitFor := None)) && z != a.current
    ensures c == Gone(a, z)
  {
    hide Excluding;
  }

  /** `do_wait`: reaps a zombie, fails without such a child, or goes to sleep. */
  ghost predicate Waits(a: View, pid: int, b: View, idle: Proc) {
    || (exists z :: z in OwnOf(a) && Reapable(a, pid, z) && b == Gone(a, z))
    || (!HasChild(OwnOf(a), pid) && b == Put(a, a.current, Mine(a).(waitFor := None)))
    || (HasChild(OwnOf(a), pid) && NoZombie(a, pid)
        && Switched(Put(a, a.current, Mine(a).(state := Sleeping, waitFor := Some(pid))), b, idle))
  }

  lemma WaitsReap(a: View, pid: int, z: Proc, idle: Proc)
    requires z in OwnOf(a) && Reapable(a, pid, z)
    ensures Waits(a, pid, Gone(a, z), idle)
  {
  }

  lemma WaitsFail(a: View, pid: int, idle: Proc)
    requires !HasChild(OwnOf(a), pid)
    ensures Waits(a, pid, Put(a, a.current, Mine(a).(waitFor := None)), idle)
  {
  }

  lemma WaitsSleep(a: View, pid: int, b: View, idle: Proc)
    requires HasChild(OwnOf(a), pid) && NoZombie(a, pid)
    requires Switched(Put(a, a.current, Mine(a).(state := Sleeping, waitFor := Some(pid))), b, idle)
    ensures Waits(a, pid, b, idle)
  {
  }

  /** `do_kill` marks the process with the pid and wakes it, unless it was marked before. */
  ghost predicate Kills(a: View, pid: int, b: View) {
    if p :| p in a.list && p.pid == pid
    then b == if At(a, p).killed then a else Woken(Put(a, p, At(a, p).(killed := true)), p)
    else b == a
  }

  lemma KillsNone(a: View, pid: int)
    requires forall p :: p in a.list ==> p.pid != pid
    ensures Kills(a, pid, a)
  {
  }

  lemma KillsOne(a: View, p: Proc)
    requires p in a.list && forall q :: q in a.list && q.pid == p.pid ==> q == p
    ensures forall b :: Kills(a, p.pid, b) <==>
      b == if At(a, p).killed then a else Woken(Put(a, p, At(a, p).(killed := true)), p)
  {
    hide Woken, Put, At;
  }

  // ---------- steps ----------

  /** The next step stops the machine: the first process exits, or was killed while it waits. */
  ghost predicate Halts(v: View, init: Proc, call: Call) {
    v.current == init && if Mine(v).waitFor.Some? then Mine(v).killed else call.Exit?
  }

  /** The process whose turn it is makes the call; the idle process does not, and one that was switched to
      inside `do_wait` has that to finish. */
  ghost predicate Makes(v: View, idle: Proc) {
    v.current != idle && Mine(v).waitFor.None?
  }

  ghost predicate Serves(a: View, call: Call, b: View, idle: Proc, init: Proc) {
    match call
    case Fork(memory) => Forks(a, memory, b)
    case Exit(code) => Dies(a, code, b, idle, init)
    case Wait(pid, storeOk) => if storeOk then Waits(a, pid, b, idle) else b == a
    case Kill(pid) => Kills(a, pid, b)
    case Yield => b == Put(a, a.current, Mine(a).(resched := true))
    case Reschedule => if a.current == init then Switched(a, b, idle) else b == a
  }

  /** What is left of the last call; the idle process looks for work. */
  ghost predicate Continues(a: View, b: View, idle: Proc, init: Proc) {
    if Mine(a).waitFor.None? then Switched(a, b, idle)
    else if Mine(a).killed then Dies(a, -E_KILLED, b, idle, init)
    else Waits(a, Mine(a).waitFor.value, b, idle)
  }

  /** The process goes back to user mode, which kernel threads do not. */
  ghost predicate Leaves(a: View, m: View, idle: Proc, init: Proc) {
    a.current != idle && a.current != init && m.current == a.current && Mine(m).waitFor.None?
  }

  /** The end of `trap`. */
  ghost predicate Returns(m: View, b: View, idle: Proc, init: Proc) {
    if Mine(m).killed then Dies(m, -E_KILLED, b, idle, init)
    else if Mine(m).resched then Switched(m, b, idle)
    else b == m
  }

  /** A step of the kernel that does not stop the machine: what becomes of every process, and who runs next. */
  ghost predicate Moves(a: View, call: Call, m: View, b: View, idle: Proc, init: Proc) {
    && (if Makes(a, idle) then Serves(a, call, m, idle, init) else Continues(a, m, idle, init))
    && (if Leaves(a, m, idle, init) then Returns(m, b, idle, init) else b == m)
  }

  lemma DiesDead(a: View, code: int, b: View, idle: Proc, init: Proc)
    requires Dies(a, code, b, idle, init)
    ensures At(b, a.current).state == Zombie
  {
    hide Adopted;
  }

  lemma SwitchedSame(a: View, b: View, idle: Proc, p: Proc)
    requires Switched(a, b, idle)
    ensures var i, j := At(a, p), At(b, p); j.state == i.state && j.waitFor == i.waitFor && j.killed == i.killed
  {
  }

  /** A process that did not get as far as the way back to user mode is dead, or inside do_wait. */
  lemma NotLeaving(a: View, call: Call, m: View, idle: Proc, init: Proc)
    requires if Makes(a, idle) then Serves(a, call, m, idle, init) else Continues(a, m, idle, init)
    requires a.current != idle && a.current != init && !Leaves(a, m, idle, init)
    ensures At(m, a.current).state == Zombie || At(m, a.current).waitFor.Some?
  {
    hide Dies, Switched, Adopted, Excluding, Kills;
    var me := a.current;
    if code :| Dies(a, code, m, idle, init) {
      DiesDead(a, code, m, idle, init);
    } else if pid :| Switched(Put(a, me, Mine(a).(state := Sleeping, waitFor := Some(pid))), m, idle) {
      SwitchedSame(Put(a, me, Mine(a).(state := Sleeping, waitFor := Some(pid))), m, idle, me);
    } else if Makes(a, idle) && call.Kill? {
      KillsCurrent(a, call.pid, m);
    }
  }

  lemma KillsCurrent(a: View, pid: int, b: View)
    requires Kills(a, pid, b)
    ensures b.current == a.current
  {
  }

  /** A process that was killed does not get back to user mode: it is dead, or inside do_wait. */
  lemma KilledLeaves(a: View, call: Call, m: View, b: View, idle: Proc, init: Proc)
    requires Moves(a, call, m, b, idle, init) && a.current != idle && a.current != init
    requires At(b, a.current).killed
    ensures At(b, a.current).state == Zombie || At(b, a.current).waitFor.Some?
  {
    hide Dies, Switched, Serves, Continues;
    if !Leaves(a, m, idle, init) {
      NotLeaving(a, call, m, idle, init);
    } else if Mine(m).killed {
      DiesDead(m, -E_KILLED, b, idle, init);
    } else if Mine(m).resched {
      SwitchedSame(m, b, idle, a.current);
    }
  }

  // ---------- what the relations come to ----------

  /** `schedule` passes over nobody who is ready: from position `i` of the running process, or from the head for the
      idle one, the next process at `k` is the first in cyclic order that is runnable. */
  lemma SwitchedFirst(a: View, b: View, idle: Proc, i: int, k: int)
    requires Switched(a, b, idle) && NoDuplicates(a.list) && idle !in a.list
    requires if a.current == idle then i == -1 else 0 <= i < |a.list| && a.list[i] == a.current
    requires 0 <= k < |a.list| && a.list[k] == b.current
    ensures At(a, b.current).state == Runnable
    ensures forall j :: 0 <= j < |a.list| && (if i < k then i < j < k else j > i || j < k) ==>
      At(a, a.list[j]).state != Runnable
  {
    var n, from: nat := |a.list|, i + 1;
    var f: nat :| Starts(a.list, f, a.current, idle) && Chosen(a.list, Ready(a), f, idle, b.current);
    assert f == from;
    var m: nat :| 1 <= m <= n + 1 && FirstAt(a.list, Ready(a), from, m, b.current);
    assert After(n, from, m) == k + 1;
    forall j | 0 <= j < n && (if i < k then i < j < k else j > i || j < k)
      ensures At(a, a.list[j]).state != Runnable
    {
      var step: nat := if j > i then j - i else j + n + 1 - i;
      assert After(n, from, step) == j + 1 && step < m;
      assert !ReadyAt(a.list, Ready(a), j + 1);
    }
  }

  /** Nothing but the mark of the process that ran changes, somebody runs who is runnable, and idle only if nobody is. */
  lemma SwitchedRest(a: View, b: View, idle: Proc)
    requires Switched(a, b, idle)
    ensures b.list == a.list && b.children == a.children && b.last == a.last
    ensures forall p :: At(b, p) == if p == a.current then At(a, p).(resched := false) else At(a, p)
    ensures if exists p :: p in a.list && At(a, p).state == Runnable
            then b.current in a.list && At(a, b.current).state == Runnable else b.current == idle
  {
    if p :| p in a.list && At(a, p).state == Runnable {
      assert p in Ready(a);
    }
  }

  /** The places from position `i` on to position `k`, going round the list by way of its head. */
  function Distance(n: nat, i: int, k: int): (d: int)
    requires -1 <= i < n && 0 <= k < n
    ensures 1 <= d <= n + 1
  {
    if k > i then k - i else k - i + n + 1
  }

  lemma {:induction false} IndexIn(list: seq<Proc>, p: Proc) returns (k: int)
    requires p in list
    ensures 0 <= k < |list| && list[k] == p
  {
    k :| 0 <= k < |list| && list[k] == p;
  }

  /** Round robin: whoever is runnable gets the processor within as many switches as there are processes, and one,
      if nothing else happens in between. */
  lemma {:induction false} RoundRobin(views: seq<View>, idle: Proc, i: int, k: int)
    requires |views| > 0 && forall t :: 0 <= t < |views| - 1 ==> Switched(views[t], views[t + 1], idle)
    requires NoDuplicates(views[0].list) && idle !in views[0].list && -1 <= i < |views[0].list|
    requires if views[0].current == idle then i == -1 else 0 <= i && views[0].list[i] == views[0].current
    requires 0 <= k < |views[0].list| && At(views[0], views[0].list[k]).state == Runnable
    requires |views| > Distance(|views[0].list|, i, k)
    ensures exists t :: 1 <= t <= Distance(|views[0].list|, i, k) && views[t].current == views[0].list[k]
    decreases |views|
  {
    hide Switched;
    var a, b := views[0], views[1];
    assert Switched(views[0], views[0 + 1], idle);
    SwitchedRest(a, b, idle);
    var j := IndexIn(a.list, b.current);
    SwitchedFirst(a, b, idle, i, j);
    if j == k {
      assert views[1].current == a.list[k];
    } else {
      var rest := views[1..];
      forall t | 0 <= t < |rest| - 1 ensures Switched(rest[t], rest[t + 1], idle) {
        assert Switched(views[t + 1], views[t + 1 + 1], idle);
      }
      RoundRobin(rest, idle, j, k);
      var t :| 1 <= t <= Distance(|a.list|, j, k) && rest[t].current == a.list[k];
      assert views[t + 1].current == a.list[k];
    }
  }

  lemma ForksRest(a: View, memory: bool, b: View)
    requires Forks(a, memory, b) && a.current in a.children
    ensures |a.list| >= 4095 || !memory ==> b == a
    ensures |a.list| < 4095 && memory ==>
      && |b.list| == |a.list| + 1 && b.list[1..] == a.list && b.current == a.current
      && var p := b.list[0];
      && p !in a.info && NextFree(a.last, Pids(a.list), p.pid) && b.last == p.pid
      && b.children == a.children[a.current := [p] + a.children[a.current]][p := []]
      && b.info == a.info[p := Info(Runnable, None, false, false, 0)]
  {
  }

  /** The process that exits is a zombie with its code and its children have gone to init in reverse order; its parent
      is awake, and so is init if it has been given a zombie; nobody else changes, and the next process is the one
      that `schedule` chooses. */
  lemma DiesRest(a: View, code: int, b: View, idle: Proc, init: Proc)
    requires Dies(a, code, b, idle, init) && a.current in a.children && init in a.children && a.current != init
    requires a.current !in a.children[a.current]
    ensures var me, own := a.current, a.children[a.current];
      && At(b, me).state == Zombie && At(b, me).code == code && At(b, me).waitFor.None? && !At(b, me).resched
      && At(b, me).killed == At(a, me).killed && b.list == a.list && b.last == a.last
      && b.children == a.children[me := []][init := Reversed(own) + a.children[init]]
      && (exists q :: q in a.children && me in a.children[q] && (q != me ==> At(b, q).state != Sleeping))
      && ((exists c :: c in own && At(a, c).state == Zombie) ==> At(b, init).state != Sleeping)
      && (forall x :: x != me ==>
            || At(b, x) == At(a, x)
            || (At(a, x).state == Sleeping && At(b, x) == At(a, x).(state := Runnable)
                && ((x in a.children && me in a.children[x]) || (x == init && AnyZombie(a, own)))))
      && Switched(b.(current := me), b, idle)
  {
    hide Adopted, Switched, Dead;
    var q :| q in a.children && a.current in a.children[q] && Switched(Dead(a, code, q, init), b, idle);
    DeadRest(a, code, q, init);
    DeadOthers(a, code, q, init);
    SwitchedRest(Dead(a, code, q, init), b, idle);
    SwitchedAgain(Dead(a, code, q, init), b, idle);
  }

  lemma DeadRest(a: View, code: int, q: Proc, init: Proc)
    requires a.current in a.children && init in a.children && a.current != init && a.current !in a.children[a.current]
    ensures var d, me, own := Dead(a, code, q, init), a.current, a.children[a.current];
      && At(d, me).state == Zombie && At(d, me).code == code && At(d, me).waitFor.None?
      && At(d, me).killed == At(a, me).killed
      && d.current == me && d.list == a.list && d.last == a.last
      && d.children == a.children[me := []][init := Reversed(own) + a.children[init]]
  {
    hide Adopted, AnyZombie;
    AdoptedAll(a.children, a.current, init);
  }

  lemma DeadOthers(a: View, code: int, q: Proc, init: Proc)
    requires a.current in a.children && init in a.children && a.current != init
    requires q in a.children && a.current in a.children[q]
    ensures var d, me, own := Dead(a, code, q, init), a.current, a.children[a.current];
      && (q != me ==> At(d, q).state != Sleeping) && (AnyZombie(a, own) ==> At(d, init).state != Sleeping)
      && forall x :: x != me ==>
           || At(d, x) == At(a, x)
           || (At(a, x).state == Sleeping && At(d, x) == At(a, x).(state := Runnable)
               && ((x in a.children && me in a.children[x]) || (x == init && AnyZombie(a, own))))
  {
    hide Adopted, AnyZombie;
  }

  lemma SwitchedAgain(a: View, b: View, idle: Proc)
    requires Switched(a, b, idle)
    ensures Switched(b.(current := a.current), b, idle)
  {
    hide Chosen, Starts;
    var v := b.(current := a.current);
    assert Ready(v) == Ready(a);
    assert b == Put(v, a.current, At(v, a.current).(resched := false)).(current := b.current);
  }

  /** `do_wait`: fails without such a child; sleeps if there are some, but no zombie among them; otherwise one zombie
      leaves the list and the tree, the youngest if any child will do. */
  lemma WaitsRest(a: View, pid: int, b: View, idle: Proc)
    requires Waits(a, pid, b, idle) && a.current in a.children && a.current in a.info
    requires a.current !in a.children[a.current]
    ensures var me, own := a.current, a.children[a.current];
      && (!(exists c :: c in own && (pid == 0 || c.pid == pid)) ==>
            b == a.(info := a.info[me := At(a, me).(waitFor := None)]))
      && ((exists c :: c in own && (pid == 0 || c.pid == pid))
          && !(exists c :: c in own && (pid == 0 || c.pid == pid) && At(a, c).state == Zombie) ==>
            && At(b, me).state == Sleeping && At(b, me).waitFor == Some(pid) && !At(b, me).resched
            && b.list == a.list && b.children == a.children && (forall x :: x != me ==> At(b, x) == At(a, x))
            && Switched(b.(current := me), b, idle))
      && ((exists c :: c in own && (pid == 0 || c.pid == pid) && At(a, c).state == Zombie) ==>
            exists i :: 0 <= i < |own| && ReapedAt(a, pid, i, b))
  {
    hide Chosen, Starts, Excluding;
    var me, own := a.current, a.children[a.current];
    if z :| z in own && Reapable(a, pid, z) && b == Gone(a, z) {
      assert Awaited(own, pid, z);
      if pid == 0 {
        var i :| YoungestZombie(a, i, z);
        assert ReapedAt(a, pid, i, b);
      } else {
        var i :| 0 <= i < |own| && own[i] == z;
        assert ReapedAt(a, pid, i, b);
      }
    } else if HasChild(own, pid) {
      forall c | c in own && (pid == 0 || c.pid == pid) ensures At(a, c).state != Zombie {
        assert Awaited(own, pid, c);
      }
      SwitchedAgain(Put(a, me, Mine(a).(state := Sleeping, waitFor := Some(pid))), b, idle);
    } else {
      forall c | c in own ensures !(pid == 0 || c.pid == pid) {
        assert !Awaited(own, pid, c);
      }
    }
  }

  /** The `i`-th child, a zombie that was waited for, has left; the others and their order stay. */
  ghost predicate ReapedAt(a: View, pid: int, i: int, b: View)
    requires a.current in a.children && 0 <= i < |a.children[a.current]|
  {
    var me, own := a.current, a.children[a.current];
    var z := own[i];
    && At(a, z).state == Zombie
    && (if pid == 0 then forall j :: 0 <= j < i ==> At(a, own[j]).state != Zombie else z.pid == pid)
    && b.current == me && b.last == a.last && b.list == Excluding(a.list, z)
    && b.children == (a.children - {z})[me := Excluding(own, z)]
    && b.info == (a.info - {z})[me := At(a, me).(waitFor := None)]
  }

  /** `do_kill`: exactly the process with the pid is marked, and woken if it slept; marking it again does nothing. */
  lemma KillsRest(a: View, pid: int, b: View)
    requires Kills(a, pid, b) && forall p, q :: p in a.list && q in a.list && p.pid == q.pid ==> p == q
    ensures b.current == a.current && b.list == a.list && b.children == a.children && b.last == a.last
    ensures forall p :: !(p in a.list && p.pid == pid && !At(a, p).killed) ==> At(b, p) == At(a, p)
    ensures forall p :: p in a.list && p.pid == pid && !At(a, p).killed ==>
      At(b, p) == At(a, p).(killed := true, state := if At(a, p).state == Sleeping then Runnable else At(a, p).state)
  {
  }

  /** What a step does for whom: the calls of a process that is not inside do_wait, up to its way back to user mode. */
  lemma CallsServed(a: View, call: Call, m: View, b: View, idle: Proc, init: Proc)
    requires Moves(a, call, m, b, idle, init) && a.current != idle && At(a, a.current).waitFor.None?
    ensures call.Fork? ==> Forks(a, call.memory, m)
    ensures call.Exit? ==> Dies(a, call.code, m, idle, init)
    ensures call.Wait? ==> if call.storeOk then Waits(a, call.pid, m, idle) else m == a
    ensures call.Kill? ==> Kills(a, call.pid, m)
    ensures call.Yield? ==> m == a.(info := a.info[a.current := At(a, a.current).(resched := true)])
    ensures call.Reschedule? ==> if a.current == init then Switched(a, m, idle) else m == a
  {
    hide Forks, Dies, Waits, Kills, Switched;
  }

  /** A process that was switched to inside do_wait goes on with it, unless it was killed; the idle process calls
      `schedule`; after both nothing else happens in the step if another process runs. */
  lemma WaitsOn(a: View, call: Call, m: View, b: View, idle: Proc, init: Proc)
    requires Moves(a, call, m, b, idle, init) && (a.current == idle || At(a, a.current).waitFor.Some?)
    ensures At(a, a.current).waitFor.None? ==> Switched(a, b, idle)
    ensures At(a, a.current).waitFor.Some? ==>
      if At(a, a.current).killed then Dies(a, -9, m, idle, init) else Waits(a, At(a, a.current).waitFor.value, m, idle)
  {
    hide Dies, Waits, Switched;
  }

  /** The way back to user mode: a killed process exits, one that is to be rescheduled gives way to the one that
      `schedule` chooses, and any other goes on as it is; kernel threads, and processes that do not run any more,
      are not on it. */
  lemma WayBack(a: View, call: Call, m: View, b: View, idle: Proc, init: Proc)
    requires Moves(a, call, m, b, idle, init)
    ensures var me := a.current;
      if me != idle && me != init && m.current == me && At(m, me).waitFor.None? then
        && (At(m, me).killed ==> Dies(m, -9, b, idle, init))
        && (!At(m, me).killed && At(m, me).resched ==> Switched(m, b, idle))
        && (!At(m, me).killed && !At(m, me).resched ==> b == m)
      else b == m
  {
    hide Dies, Switched, Serves, Continues;
  }

  /** A user process that yields and was not killed gives the processor to the process that `schedule` chooses. */
  lemma YieldGivesWay(a: View, m: View, b: View, idle: Proc, init: Proc)
    requires Moves(a, Yield, m, b, idle, init) && a.current != idle && a.current != init
    requires At(a, a.current).waitFor.None? && !At(a, a.current).killed
    ensures Switched(a, b, idle)
  {
    hide Chosen, Starts;
    CallsServed(a, Yield, m, b, idle, init);
    WayBack(a, Yield, m, b, idle, init);
    assert Ready(m) == Ready(a);
    assert Put(m, m.current, Mine(m).(resched := false)) == Put(a, a.current, Mine(a).(resched := false));
  }

  /** No user process goes on with the mark set: after its step it is dead, inside do_wait, or not to be rescheduled. */
  lemma NoMarkLeft(a: View, call: Call, m: View, b: View, idle: Proc, init: Proc)
    requires Moves(a, call, m, b, idle, init) && a.current != idle && a.current != init
    ensures At(b, a.current).state == Zombie || At(b, a.current).waitFor.Some? || !At(b, a.current).resched
  {
    hide Dies, Switched, Serves, Continues;
    if !Leaves(a, m, idle, init) {
      NotLeaving(a, call, m, idle, init);
    } else if Mine(m).killed {
      DiesDead(m, -E_KILLED, b, idle, init);
    } else if Mine(m).resched {
      SwitchedRest(m, b, idle);
    }
  }

  /** Both, for a step of a user process. */
  lemma GivesWay(a: View, call: Call, m: View, b: View, idle: Proc, init: Proc)
    requires Moves(a, call, m, b, idle, init) && a.current != idle && a.current != init
    ensures call.Yield? && Mine(a).waitFor.None? && !Mine(a).killed ==> Switched(a, b, idle)
    ensures At(b, a.current).state == Zombie || At(b, a.current).waitFor.Some? || !At(b, a.current).resched
  {
    hide Moves, Switched;
    NoMarkLeft(a, call, m, b, idle, init);
    if call.Yield? && Mine(a).waitFor.None? && !Mine(a).killed {
      YieldGivesWay(a, m, b, idle, init);
    }
  }

  // ---------- the children of the idle process ----------

  /** The processes are those with children listed, and idle is nobody's child. */
  ghost predicate Rooted(v: View, idle: Proc) {
    && v.children.Keys == v.info.Keys && idle in v.info
    && forall p :: p in v.children ==> idle !in v.children[p]
  }

  ghost predicate OnlyChild(v: View, idle: Proc, init: Proc) {
    idle in v.children && v.children[idle] == [init]
  }

  lemma DiesKeeps(a: View, code: int, b: View, idle: Proc, init: Proc)
    requires Rooted(a, idle) && Dies(a, code, b, idle, init) && a.current != idle && a.current != init && init != idle
    requires init in a.children && OnlyChild(a, idle, init)
    ensures OnlyChild(b, idle, init)
  {
    hide Adopted;
    if a.current in a.children {
      AdoptedAll(a.children, a.current, init);
    }
  }

  lemma WaitsKeeps(a: View, pid: int, b: View, idle: Proc, init: Proc)
    requires Rooted(a, idle) && Waits(a, pid, b, idle) && a.current != idle && OnlyChild(a, idle, init)
    ensures OnlyChild(b, idle, init)
  {
    hide Excluding;
  }

  lemma ServesKeeps(a: View, call: Call, b: View, idle: Proc, init: Proc)
    requires Rooted(a, idle) && Makes(a, idle) && Serves(a, call, b, idle, init) && !Halts(a, init, call)
    requires init != idle && init in a.children && OnlyChild(a, idle, init)
    ensures OnlyChild(b, idle, init)
  {
    hide Dies, Waits;
    match call
    case Exit(code) => DiesKeeps(a, code, b, idle, init);
    case Wait(pid, storeOk) => if storeOk { WaitsKeeps(a, pid, b, idle, init); }
    case _ =>
  }

  lemma ContinuesKeeps(a: View, b: View, idle: Proc, init: Proc, call: Call)
    requires Rooted(a, idle) && Continues(a, b, idle, init) && !Halts(a, init, call) && At(a, idle).waitFor.None?
    requires init != idle && init in a.children && OnlyChild(a, idle, init)
    ensures OnlyChild(b, idle, init)
  {
    hide Dies, Waits;
    if Mine(a).waitFor.Some? {
      if Mine(a).killed {
        DiesKeeps(a, -E_KILLED, b, idle, init);
      } else {
        WaitsKeeps(a, Mine(a).waitFor.value, b, idle, init);
      }
    }
  }

  lemma ReturnsKeeps(m: View, b: View, idle: Proc, init: Proc)
    requires Rooted(m, idle) && Returns(m, b, idle, init) && m.current != idle && m.current != init
    requires init != idle && init in m.children && OnlyChild(m, idle, init)
    ensures OnlyChild(b, idle, init)
  {
    hide Dies;
    if Mine(m).killed {
      DiesKeeps(m, -E_KILLED, b, idle, init);
    }
  }

  /** What every step keeps, and what it leaves of a user process. */
  lemma StepKeeps(a: View, call: Call, m: View, b: View, idle: Proc, init: Proc)
    requires Moves(a, call, m, b, idle, init) && !Halts(a, init, call) && Rooted(a, idle) && Rooted(m, idle)
    requires init != idle && init in a.children && init in m.children && At(a, idle).waitFor.None?
    ensures OnlyChild(a, idle, init) ==> OnlyChild(b, idle, init)
    ensures a.current != idle && a.current != init ==>
      && (call.Yield? && Mine(a).waitFor.None? && !Mine(a).killed ==> Switched(a, b, idle))
      && (At(b, a.current).state == Zombie || At(b, a.current).waitFor.Some? || !At(b, a.current).resched)
  {
    hide Serves, Continues, Returns, Switched, OnlyChild, Rooted;
    if OnlyChild(a, idle, init) {
      if Makes(a, idle) {
        ServesKeeps(a, call, m, idle, init);
      } else {
        ContinuesKeeps(a, m, idle, init, call);
      }
      if Leaves(a, m, idle, init) {
        ReturnsKeeps(m, b, idle, init);
      }
    }
    if a.current != idle && a.current != init {
      GivesWay(a, call, m, b, idle, init);
    }
  }
}
