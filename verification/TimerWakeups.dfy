/** The timer interrupt (`run_timer_list` of lab8/kern/schedule/sched.c): the timers due now wake their
    processes, and the time slice of the running process shrinks. */
module TimerWakeups {
  import opened ProcStruct
  import opened SkewHeap
  import opened Scheduler
  import T = TimerQueue

  /** The assertions about a process whose timer fires: it is no zombie, and if it waits for something, it may be
      interrupted. */
  ghost predicate MayWake(p: Proc, interruptible: set<Proc>)
    reads p`state, p`waiting
  {
    p.state != Zombie && (p.waiting ==> p in interruptible)
  }

  /** The processes of the first `n` of the timers. */
  ghost function Owners(timers: seq<T.Timer>, n: nat, owner: map<T.Timer, Proc>): (s: set<Proc>)
    requires n <= |timers|
  {
    if n == 0 then {} else
      Owners(timers, n - 1, owner) + if timers[n - 1] in owner then {owner[timers[n - 1]]} else {}
  }

  lemma OwnersMore(timers: seq<T.Timer>, i: nat, owner: map<T.Timer, Proc>)
    requires i <= |timers|
    ensures Owners(timers, 0, owner) == {}
    ensures i < |timers| && timers[i] in owner ==>
      Owners(timers, i + 1, owner) == Owners(timers, i, owner) + {owner[timers[i]]}
  {
  }

  lemma {:induction false} OwnersAre(timers: seq<T.Timer>, n: nat, owner: map<T.Timer, Proc>)
    requires n <= |timers|
    ensures forall p :: p in Owners(timers, n, owner) <==>
      exists k :: 0 <= k < n && timers[k] in owner && owner[timers[k]] == p
  {
    if n > 0 {
      OwnersAre(timers, n - 1, owner);
    }
  }

  /** The wakeup of a process whose timer fires, with its assertions. */
  method WakeOwner(s: Scheduler, p: Proc, interruptible: set<Proc>) returns (ok: bool)
    requires s.Valid() && p in s.procs
    modifies p`state, p`waiting, s.rq, s.procs`left, s.procs`right, s.procs`parent, p`timeSlice, p`queued
    ensures s.Valid() && (ok <==> old(MayWake(p, interruptible)))
    ensures !ok ==> unchanged(p, s.rq) && unchanged(s.procs)
    ensures ok ==> p.state == Runnable && (p.waiting ==> old(p.waiting))
    ensures ok && p == s.current ==> p.timeSlice == old(p.timeSlice)
    ensures ok ==> s.Contenders() == old(s.Contenders()) + ({p} - {s.idle})
    ensures ok && (old(s.InWindow()) <==> Close(old(s.Contenders()), s.full)) ==>
      (s.InWindow() <==> Close(s.Contenders(), s.full))
  {
    hide Scheduler.Valid, Scheduler.Contenders, Scheduler.InWindow, Close;
    if (p.waiting && p !in interruptible) || p.state == Zombie {
      return false;
    }
    ghost var before := s.Contenders();
    s.Wakeup(p);
    CloseSubset(before, s.Contenders(), s.full);
    WindowIsClose(s);
    return true;
  }

  /** The wakeups of a tick, in order, up to the first assertion that fails. */
  method WakeOwners(s: Scheduler, fired: seq<T.Timer>, owner: map<T.Timer, Proc>, interruptible: set<Proc>)
    returns (ok: bool)
    requires s.Valid() && forall t :: t in fired ==> t in owner && owner[t] in s.procs
    modifies s.rq, s.procs`left, s.procs`right, s.procs`parent, s.procs`state, s.procs`waiting
    modifies s.procs`timeSlice, s.procs`queued
    ensures s.Valid() && (ok <==> forall t :: t in fired ==> old(MayWake(owner[t], interruptible)))
    ensures ok ==> forall p :: p in s.procs ==>
      p.state == if p in Owners(fired, |fired|, owner) then Runnable else old(p.state)
    ensures ok ==> s.Contenders() == old(s.Contenders()) + (Owners(fired, |fired|, owner) - {s.idle})
    ensures ok && old(s.InWindow()) ==> (s.InWindow() <==> Close(s.Contenders(), s.full))
    ensures ok ==> s.current.timeSlice == old(s.current.timeSlice)
  {
    hide Scheduler.Valid, Scheduler.Contenders, Scheduler.InWindow, Close, Owners;
    WindowIsClose(s);
    OwnersMore(fired, 0, owner);
    for i := 0 to |fired|
      invariant s.Valid() && forall k :: 0 <= k < i ==> old(MayWake(owner[fired[k]], interruptible))
      invariant forall p :: p in s.procs ==> p.state == if p in Owners(fired, i, owner) then Runnable else old(p.state)
      invariant forall p :: p in s.procs && p !in Owners(fired, i, owner) ==> p.waiting == old(p.waiting)
      invariant forall p :: p in s.procs ==> (p.waiting ==> old(p.waiting))
      invariant forall p :: p in s.procs && p in Owners(fired, i, owner) ==> old(MayWake(p, interruptible))
      invariant s.Contenders() == old(s.Contenders()) + (Owners(fired, i, owner) - {s.idle})
      invariant s.current.timeSlice == old(s.current.timeSlice)
      invariant old(s.InWindow()) ==> (s.InWindow() <==> Close(s.Contenders(), s.full))
    {
      OwnersMore(fired, i, owner);
      ok := WakeOwner(s, owner[fired[i]], interruptible);
      if !ok {
        return false;
      }
    }
    return true;
  }

  /** `run_timer_list`. Unless an assertion fails, the processes of exactly the timers due now are runnable and compete
      for the processor; nobody else's state changes. It fails exactly if one of them is a zombie or waits
      without being interruptible. */
  method RunTimerList(q: T.TimerList, s: Scheduler, owner: map<T.Timer, Proc>, interruptible: set<Proc>)
    returns (ok: bool, fired: seq<T.Timer>)
    requires q.Valid() && s.Valid() && forall t :: t in q.list ==> t in owner && owner[t] in s.procs
    modifies q, q.list`expires, s.rq, s.procs`left, s.procs`right, s.procs`parent, s.procs`state, s.procs`waiting
    modifies s.procs`timeSlice, s.procs`queued, s.procs`needResched
    ensures q.Valid() && q.clock == old(q.clock) + 1 && s.Valid()
    ensures old(q.list) == fired + q.list && old(q.due) == T.Repeat(q.clock, |fired|) + q.due
    ensures forall k :: 0 <= k < |q.due| ==> q.due[k] > q.clock
    ensures forall t :: t in fired ==> t in owner && owner[t] in s.procs
    ensures ok <==> forall t :: t in fired ==>
      old(owner[t].state) != Zombie && (old(owner[t].waiting) ==> owner[t] in interruptible)
    ensures ok ==> forall t :: t in fired ==>
      owner[t].state == Runnable && (owner[t] == s.idle || owner[t] in s.Contenders())
    ensures ok ==> forall p :: p in s.procs && (forall t :: t in fired ==> owner[t] != p) ==>
      p.state == old(p.state) && (p in s.Contenders() <==> p in old(s.Contenders()))
    ensures ok && old(s.InWindow()) ==> (s.InWindow() <==> Close(s.Contenders(), s.full))
    ensures ok ==>
      var p := s.current;
      if p == s.idle then p.needResched
      else p.timeSlice == (if old(p.timeSlice) > 0 then old(p.timeSlice) - 1 else 0)
           && (p.needResched <==> old(p.needResched) || old(p.timeSlice) <= 1)
  {
    hide T.TimerList.Valid, T.Repeat, Scheduler.Valid, Scheduler.Contenders, Scheduler.InWindow, Close, Owners;
    fired := q.Tick();
    OwnersAre(fired, |fired|, owner);
    assert forall k :: 0 <= k < |fired| ==> fired[k] == old(q.list)[k];
    ok := WakeOwners(s, fired, owner, interruptible);
    if ok {
      CurrentListed(s);
      WindowIsClose(s);
      s.ProcTick();
    }
  }

  lemma CloseSubset(a: set<Proc>, b: set<Proc>, full: map<Proc, nat>)
    requires a <= b
    ensures Close(b, full) ==> Close(a, full)
  {
  }

  lemma CurrentListed(s: Scheduler)
    requires s.Valid()
    ensures s.current in s.procs
  {
    hide RunQueue.Valid;
  }

  lemma WindowIsClose(s: Scheduler)
    ensures s.InWindow() ==> Close(s.Contenders(), s.full)
  {
  }
}
