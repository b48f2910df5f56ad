/** The stride run queue (lab8/kern/schedule/default_sched_stride.c) and the scheduler core above
    it (lab8/kern/schedule/sched.c). */
module Scheduler {
  import opened ProcStruct
  import opened Words
  import opened SkewHeap

  class RunQueue {
    var pool: Proc?
    var procNum: nat
    const maxTimeSlice: nat
    ghost var tree: Tree
    ghost var nodes: set<Proc>

    constructor (maxTimeSlice: nat)
      ensures Valid() && tree == Nil && this.maxTimeSlice == maxTimeSlice
    {
      pool, procNum, tree, nodes := null, 0, Nil, {};
      this.maxTimeSlice := maxTimeSlice;
    }

    ghost predicate Valid()
      reads this, nodes`left, nodes`right, nodes`parent, nodes`queued
    {
      && nodes == Nodes(tree) && Distinct(tree)
      && pool == Root(tree) && Linked(tree)
      && (pool != null ==> pool.parent == null)
      && procNum == Size(tree)
      && forall p :: p in nodes ==> p.queued
    }

    /** The counter is the number of processes in the heap. */
    lemma CountsProcesses()
      requires Valid()
      ensures procNum == |nodes|
    {
      SizeIsCardinality(tree);
    }

    lemma PoolInside()
      requires Valid()
      ensures if pool == null then nodes == {} else pool in nodes
    {
      hide Distinct, Linked, Size;
    }

    method Enqueue(p: Proc, ghost key: map<Proc, u32>)
      requires Valid() && p !in nodes && nodes + {p} <= key.Keys
      requires forall q :: q in nodes + {p} ==> q.stride == key[q]
      modifies this, (nodes + {p})`left, (nodes + {p})`right, (nodes + {p})`parent
      modifies p`timeSlice, p`queued
      ensures Valid() && nodes == old(nodes) + {p}
      ensures forall full :: Window(nodes, full, key) && Ordered(old(tree), full) ==> Ordered(tree, full)
      // it is the next to be picked exactly if no stride is less than its own
      ensures forall full :: Window(nodes, full, key) && Ordered(old(tree), full) ==>
        (pool == p <==> forall q :: q in old(nodes) ==> full[p] <= full[q])
      ensures p.timeSlice == if old(p.timeSlice) == 0 || old(p.timeSlice) > maxTimeSlice then maxTimeSlice
                             else old(p.timeSlice)
    {
      hide Ordered, Distinct, Linked, Nodes, Size, Close, Window;
      if p.timeSlice == 0 || p.timeSlice > maxTimeSlice {
        p.timeSlice := maxTimeSlice;
      }
      p.queued := true;
      procNum := procNum + 1;
      assert Linked(tree) by { LinkedFrame(tree); }
      pool, tree := Insert(pool, p, tree, key);
      nodes := nodes + {p};
    }

    method Dequeue(p: Proc, ghost key: map<Proc, u32>)
      requires Valid() && p in nodes && nodes <= key.Keys
      requires forall q :: q in nodes ==> q.stride == key[q]
      modifies this, nodes`left, nodes`right, nodes`parent
      ensures Valid() && nodes == old(nodes) - {p}
      ensures tree == Remove(old(tree), p, key)
    {
      assert p.queued && procNum > 0;
      pool := RemoveNode(pool, p, tree, key);
      label Removed:
      tree := Remove(tree, p, key);
      nodes := nodes - {p};
      procNum := procNum - 1;
      LinkedFrame@Removed(tree);
    }

    /** Returns the root, its stride raised while it is still in the heap. */
    method PickNext() returns (p: Proc?)
      requires Valid()
      modifies (if pool == null then {} else {pool})`stride
      ensures p == pool && (p == null <==> nodes == {})
      ensures p != null ==> p.stride == Wrap(old(p.stride) + Pass(p.priority))
    {
      p := pool;
      if p == null { return; }
      if p.priority != 0 {
        p.stride := Wrap(p.stride + BIG_STRIDE / p.priority);
      } else {
        p.stride := Wrap(p.stride + BIG_STRIDE);
      }
    }
  }

  class Scheduler {
    const idle: Proc
    const rq: RunQueue
    var current: Proc
    var procs: set<Proc>     // the process list
    // the unbounded strides that the 32-bit counters stand for
    ghost var full: map<Proc, nat>

    constructor (idle: Proc, maxTimeSlice: nat)
      requires idle.state == Runnable
      ensures Valid() && InWindow() && current == this.idle == idle && procs == {idle}
      ensures rq.maxTimeSlice == maxTimeSlice && fresh(rq)
    {
      this.idle, current, procs, full := idle, idle, {idle}, (map p | p in {idle} :: p.stride as nat);
      rq := new RunQueue(maxTimeSlice);
    }

    ghost predicate Valid()
      reads this, rq, procs`left, procs`right, procs`parent, procs`queued, procs`stride, procs`state
    {
      && current in procs && Consistent()
      // the run queue holds exactly the runnable processes that are neither running nor idle
      && forall q :: q in procs ==> (q in rq.nodes <==> q.state == Runnable && q != current && q != idle)
    }

    ghost predicate Consistent()
      reads this, rq, procs`left, procs`right, procs`parent, procs`queued, procs`stride, procs`state
    {
      && idle in procs && idle.state == Runnable
      && rq.nodes <= procs && rq.Valid()
      && procs == full.Keys && forall q :: q in procs ==> q.stride == Wrap(full[q])
    }

    /** The state in the middle of `schedule`: the running process is in the queue as well. */
    ghost predicate Requeued()
      reads this, rq, procs`left, procs`right, procs`parent, procs`queued, procs`stride, procs`state
    {
      && Consistent()
      && forall q :: q in procs ==> (q in rq.nodes <==> q.state == Runnable && q != idle)
    }

    /** The processes that compete for the processor. */
    ghost function Contenders(): set<Proc>
      reads this, rq, current`state
    {
      rq.nodes + if current != idle && current.state == Runnable then {current} else {}
    }

    /** The heap is ordered by the unbounded strides, which lie in one window. */
    ghost predicate InWindow()
      reads this, rq, current`state
    {
      Ordered(rq.tree, full) && Close(Contenders(), full)
    }

    /** First half of `schedule`: a running process that can go on returns to the queue. */
    method Requeue()
      requires Valid()
      modifies rq, procs`left, procs`right, procs`parent, current`timeSlice, current`queued, current`needResched
      ensures Requeued() && rq.nodes == old(Contenders()) && !current.needResched
      ensures var t, max := old(current.timeSlice), rq.maxTimeSlice;
        current.timeSlice == if current in rq.nodes && (t == 0 || t > max) then max else t
      ensures old(InWindow()) ==> Ordered(rq.tree, full)
    {
      hide Linked, Distinct, Size, Ordered, Close;
      ghost var key := Keys(procs);
      current.needResched := false;
      if current.state == Runnable && current != idle {
        rq.Enqueue(current, key);
      }
    }

    /** The root of the heap leaves it with its stride raised. */
    method Pop() returns (next: Proc?, ghost key: map<Proc, u32>)
      requires Consistent()
      modifies this`full, rq, rq.nodes`left, rq.nodes`right, rq.nodes`parent, rq.nodes`stride
      ensures Consistent() && next == old(rq.pool) && key == Keys(procs)
      ensures next == null ==> rq.tree == Nil && rq.nodes == old(rq.nodes) == {} && full == old(full)
      ensures next != null ==>
        && next in old(rq.nodes) && rq.nodes == old(rq.nodes) - {next}
        && rq.tree == Remove(old(rq.tree), next, key)
        && full == old(full)[next := old(full)[next] + Pass(next.priority)]
    {
      hide Linked, Distinct, Size, Remove, Ordered, Wrap, Pass, Nodes;
      next := rq.PickNext();
      key := Keys(procs);
      if next != null {
        assert next.stride == Wrap(full[next] + Pass(next.priority)) by {
          WrapAdd(full[next], Pass(next.priority));
        }
        full := full[next := full[next] + Pass(next.priority)];
        rq.Dequeue(next, key);
      }
    }

    /** ... and it had the least unbounded stride. */
    method PopLeast() returns (next: Proc?)
      requires Consistent()
      modifies this`full, rq, rq.nodes`left, rq.nodes`right, rq.nodes`parent, rq.nodes`stride
      ensures Consistent() && next == old(rq.pool)
      ensures next == null ==> rq.nodes == old(rq.nodes) == {} && full == old(full)
      ensures next != null ==>
        && next in old(rq.nodes) && rq.nodes == old(rq.nodes) - {next}
        && full == old(full)[next := old(full)[next] + Pass(next.priority)]
      ensures next != null && Ordered(old(rq.tree), old(full)) && Close(old(rq.nodes), old(full)) ==>
        && Ordered(rq.tree, full) && Close(old(rq.nodes), full)
        && forall p :: p in old(rq.nodes) ==> old(full)[next] <= old(full)[p]
    {
      hide Linked, Size, Remove, Distinct, Nodes, Wrap, Pass;
      ghost var key;
      next, key := Pop();
      if next != null && Ordered(old(rq.tree), old(full)) && Close(old(rq.nodes), old(full)) {
        PassPositive(next.priority);
        RaisedRootRemoved(old(rq.tree), old(full), full, key);
      }
    }

    /** Second half of `schedule`: the root of the heap becomes the running process, or idle does. */
    method Elect()
      requires Requeued()
      modifies this`current, this`full, rq, procs`left, procs`right, procs`parent, procs`stride, procs`runs
      ensures Valid() && Contenders() == old(rq.nodes)
      ensures current == if old(rq.pool) == null then idle else old(rq.pool)
      ensures forall p :: p in procs ==> p.runs == old(p.runs) + (if p == current then 1 else 0)
      ensures full == if current == idle then old(full)
                      else old(full)[current := old(full)[current] + Pass(current.priority)]
      ensures current != idle && Ordered(old(rq.tree), old(full)) && Close(old(rq.nodes), old(full)) ==>
        && Ordered(rq.tree, full) && Close(old(rq.nodes), full)
        && forall p :: p in old(rq.nodes) ==> old(full)[current] <= old(full)[p]
    {
      hide Linked, Distinct, Size, Ordered, Close, Wrap, RunQueue.Valid;
      var next := PopLeast();
      if next == null {
        next := idle;
      }
      next.runs := next.runs + 1;
      current := next;
    }

    lemma NobodyContends()
      requires Valid() && Contenders() == {}
      ensures InWindow()
    {
      hide Distinct, Linked;
    }

    method Schedule()
      requires Valid()
      modifies this`current, this`full, rq, procs`left, procs`right, procs`parent, procs`stride, procs`runs
      modifies current`timeSlice, current`queued, current`needResched
      ensures Valid() && Contenders() == old(Contenders())
      ensures current == idle <==> Contenders() == {}
      ensures current != idle ==> current in Contenders()
      ensures forall p :: p in procs ==> p.runs == old(p.runs) + (if p == current then 1 else 0)
      ensures !old(current).needResched
      ensures var p, t, max := old(current), old(current.timeSlice), rq.maxTimeSlice;
        p.timeSlice == if p in Contenders() && (t == 0 || t > max) then max else t
      ensures full == if current == idle then old(full)
                      else old(full)[current := old(full)[current] + Pass(current.priority)]
      ensures old(InWindow()) ==> InWindow()
      ensures old(InWindow()) ==> forall p :: p in Contenders() ==> old(full)[current] <= old(full)[p]
    {
      hide Linked, Distinct, Size, Ordered, Close, Wrap, Pass, RunQueue.Valid;
      Requeue();
      rq.PoolInside();
      Elect();
      if current == idle { NobodyContends(); }
    }

    /** `wakeup_proc`, past its assertion that the process is no zombie. */
    method Wakeup(p: Proc)
      requires Valid() && p in procs && p.state != Zombie
      modifies p`state, p`waiting, rq, procs`left, procs`right, procs`parent, p`timeSlice, p`queued
      ensures Valid() && p.state == Runnable && p.waiting == (old(p.waiting) && old(p.state) == Runnable)
      ensures p == current ==> p.timeSlice == old(p.timeSlice)
      ensures p != current && old(p.state) != Runnable ==>
        p.timeSlice == if old(p.timeSlice) == 0 || old(p.timeSlice) > rq.maxTimeSlice then rq.maxTimeSlice
                       else old(p.timeSlice)
      ensures Contenders() == old(Contenders()) + (if p == idle then {} else {p})
      // the window survives exactly the wakeups of processes whose strides are inside it
      ensures old(InWindow()) ==> (InWindow() <==> Close(Contenders(), full))
    {
      hide Linked, Distinct, Size, Ordered, Nodes;
      if p.state != Runnable {
        ghost var key := Keys(procs);
        p.state := Runnable;
        p.waiting := false;
        if p != current {
          rq.Enqueue(p, key);
        }
      }
    }

    /** The running process puts itself to sleep, or dies. */
    method Leave(state: State)
      requires Valid() && current != idle && (state == Sleeping || state == Zombie)
      modifies current`state, current`waiting
      ensures Valid() && current.state == state && current.waiting == (state == Sleeping)
      ensures Contenders() == old(Contenders()) - {current}
      ensures old(InWindow()) ==> InWindow()
    {
      current.state := state;
      current.waiting := state == Sleeping;
    }

    /** `sched_class_proc_tick` of the running process: its time slice shrinks, and it is to be rescheduled
        when nothing is left of it. */
    method ProcTick()
      requires Valid()
      modifies current`timeSlice, current`needResched
      ensures Valid() && Contenders() == old(Contenders()) && (old(InWindow()) ==> InWindow())
      ensures current == idle ==> current.needResched && current.timeSlice == old(current.timeSlice)
      ensures current != idle ==>
        && current.timeSlice == (if old(current.timeSlice) > 0 then old(current.timeSlice) - 1 else 0)
        && (current.needResched <==> old(current.needResched) || old(current.timeSlice) <= 1)
    {
      if current == idle {
        current.needResched := true;
        return;
      }
      if current.timeSlice > 0 {
        current.timeSlice := current.timeSlice - 1;
      }
      if current.timeSlice == 0 {
        current.needResched := true;
      }
    }

    /** A new process, not yet woken. */
    method Add(p: Proc)
      requires Valid() && p !in procs && p.state == Uninit
      modifies this`procs, this`full
      ensures Valid() && procs == old(procs) + {p} && full == old(full)[p := p.stride]
      ensures Contenders() == old(Contenders()) && (old(InWindow()) ==> InWindow())
    {
      hide Linked, Distinct, Size, Ordered, Nodes;
      procs := procs + {p};
      full := full[p := p.stride as nat];
      if old(InWindow()) {
        OrderedAgree(rq.tree, old(full), full);
      }
    }
  }
}
