/** Whole runs of the scheduler: membership of the run queue under any interleaving of its calls,
    and the proportional share that stride scheduling promises. */
module SchedulerRuns {
  import opened ProcStruct
  import opened Words
  import opened SkewHeap
  import opened Scheduler
  import opened StrideShare

  /** What can happen between two calls of the scheduler. */
  datatype Event =
    | Reschedule
    | Wake(p: Proc)
    | Block            // the running process puts itself to sleep
    | Quit             // the running process becomes a zombie
    | Spawn(p: Proc)

  /** What a run can be observed to do: who runs, who is on the process list, the states and the
      unbounded strides. */
  datatype View = View(current: Proc, procs: set<Proc>, state: map<Proc, State>, full: map<Proc, nat>)

  ghost function ViewOf(s: Scheduler, all: set<Proc>): (v: View)
    reads s, all
    ensures v.state.Keys == v.full.Keys == all
  {
    View(s.current, s.procs, map p | p in all :: p.state,
         map p | p in all :: if p in s.full then s.full[p] else p.stride as nat)
  }

  /** The processes that compete for the processor. */
  ghost function Competing(v: View, idle: Proc): set<Proc>
  {
    set p | p in v.procs && p in v.state && v.state[p] == Runnable && p != idle
  }

  /** What an event does. */
  ghost predicate Moves(a: View, e: Event, b: View, idle: Proc, pass: map<Proc, nat>) {
    && a.procs <= a.state.Keys == a.full.Keys == pass.Keys
    && match e
      case Reschedule =>
        var c := Competing(a, idle);
        && b.procs == a.procs && b.state == a.state
        && if c == {} then b.current == idle && b.full == a.full
           else b.current in c && b.full == a.full[b.current := a.full[b.current] + pass[b.current]]
      case Wake(p) => b == if p in a.procs then a.(state := a.state[p := Runnable]) else a
      case Block => b == if a.current == idle then a else a.(state := a.state[a.current := Sleeping])
      case Quit => b == if a.current == idle then a else a.(state := a.state[a.current := Zombie])
      case Spawn(p) =>
        p in a.state && b == if p in a.procs || a.state[p] != Uninit then a else a.(procs := a.procs + {p})
  }

  /** Who competes after an event, and who runs: waking adds a competitor, blocking and quitting remove the
      running process, and a call of the scheduler passes the processor to a competitor, or to idle exactly if there
      is none, and moves that competitor's stride alone. */
  lemma Competitors(a: View, e: Event, b: View, idle: Proc, pass: map<Proc, nat>)
    requires Moves(a, e, b, idle, pass)
    ensures e.Wake? && e.p in a.procs ==> Competing(b, idle) == Competing(a, idle) + ({e.p} - {idle})
    ensures (e.Block? || e.Quit?) && a.current in a.procs ==> Competing(b, idle) == Competing(a, idle) - {a.current}
    ensures (e.Block? || e.Quit?) && a.current != idle && a.current in a.state ==>
      b.state == a.state[a.current := if e.Quit? then Zombie else Sleeping]
    ensures e.Spawn? && e.p in a.state && a.state[e.p] == Uninit ==> e.p in b.procs
    ensures e.Spawn? || e.Reschedule? ==> Competing(b, idle) == Competing(a, idle) && b.state == a.state
    ensures e.Reschedule? ==> if Competing(a, idle) == {} then b.current == idle else b.current in Competing(a, idle)
    ensures e.Reschedule? ==> forall p :: p in a.full ==>
      p in b.full && b.full[p] == a.full[p] + if p == b.current && Competing(a, idle) != {} then pass[p] else 0
    ensures !e.Reschedule? ==> b.current == a.current && b.full == a.full
  {
  }

  /** `p` is at most BIG_STRIDE away from every competitor. */
  ghost predicate Inside(v: View, p: Proc, idle: Proc)
  {
    p in v.full && forall q :: q in Competing(v, idle) ==>
      && q in v.full
      && v.full[p] <= v.full[q] + BIG_STRIDE
      && v.full[q] <= v.full[p] + BIG_STRIDE
  }

  /** The process chosen is one that has a least stride. */
  ghost predicate PicksLeast(a: View, b: View, idle: Proc) {
    b.current in Competing(a, idle) ==>
      && b.current in a.full
      && forall q :: q in Competing(a, idle) ==> q in a.full && a.full[b.current] <= a.full[q]
  }

  lemma CompetingIsContenders(s: Scheduler, all: set<Proc>)
    requires s.Valid() && s.procs <= all
    ensures Competing(ViewOf(s, all), s.idle) == s.Contenders()
  {
  }

  lemma ProcsKept(s: Scheduler)
    requires s.Valid()
    ensures s.procs == s.full.Keys && s.current in s.procs && s.Contenders() <= s.procs
  {
    hide RunQueue.Valid;
  }

  method Elected(s: Scheduler, ghost all: set<Proc>, ghost pass: map<Proc, nat>)
    requires s.Valid() && s.procs <= all == pass.Keys && forall p :: p in all ==> pass[p] == Pass(p.priority)
    modifies s`current, s`full, s.rq, s.procs`left, s.procs`right, s.procs`parent, s.procs`stride, s.procs`runs
    modifies s.current`timeSlice, s.current`queued, s.current`needResched
    ensures s.Valid() && Moves(old(ViewOf(s, all)), Reschedule, ViewOf(s, all), s.idle, pass)
    ensures old(s.InWindow()) ==> s.InWindow() && PicksLeast(old(ViewOf(s, all)), ViewOf(s, all), s.idle)
  {
    hide RunQueue.Valid, Ordered, Close, Scheduler.Contenders, Scheduler.InWindow, Pass, Wrap, Competing, Scheduler.Valid;
    ghost var a := ViewOf(s, all);
    CompetingIsContenders(s, all);
    ProcsKept(s);
    s.Schedule();
    ProcsKept(s);
    ghost var b := ViewOf(s, all);
    assert b.state == a.state;
    assert s.current != s.idle ==> b.full == a.full[s.current := a.full[s.current] + pass[s.current]];
  }

  method Woken(s: Scheduler, p: Proc, ghost all: set<Proc>, ghost pass: map<Proc, nat>)
    requires s.Valid() && s.procs <= all == pass.Keys && p in s.procs && p.state != Zombie
    modifies s.rq, s.procs`left, s.procs`right, s.procs`parent, p`state, p`waiting, p`timeSlice, p`queued
    ensures s.Valid() && Moves(old(ViewOf(s, all)), Wake(p), ViewOf(s, all), s.idle, pass)
    ensures old(s.InWindow()) && Inside(old(ViewOf(s, all)), p, s.idle) ==> s.InWindow()
  {
    hide RunQueue.Valid, Ordered, Scheduler.Contenders;
    ghost var a := ViewOf(s, all);
    CompetingIsContenders(s, all);
    s.Wakeup(p);
    assert ViewOf(s, all).state == a.state[p := Runnable] && ViewOf(s, all).full == a.full;
  }

  method Left(s: Scheduler, state: State, ghost all: set<Proc>)
    requires s.Valid() && s.procs <= all && s.current != s.idle && (state == Sleeping || state == Zombie)
    modifies s.current`state, s.current`waiting
    ensures s.Valid() && (old(s.InWindow()) ==> s.InWindow())
    ensures var a := old(ViewOf(s, all)); ViewOf(s, all) == a.(state := a.state[s.current := state])
  {
    hide RunQueue.Valid, Ordered, Close, Scheduler.Contenders;
    ghost var a := ViewOf(s, all);
    s.Leave(state);
    assert ViewOf(s, all).state == a.state[s.current := state] && ViewOf(s, all).full == a.full;
  }

  method Added(s: Scheduler, p: Proc, ghost all: set<Proc>)
    requires s.Valid() && s.procs <= all && p in all && p !in s.procs && p.state == Uninit
    modifies s`procs, s`full
    ensures s.Valid() && (old(s.InWindow()) ==> s.InWindow())
    ensures var a := old(ViewOf(s, all)); ViewOf(s, all) == a.(procs := a.procs + {p})
  {
    hide RunQueue.Valid, Ordered, Close, Scheduler.Contenders;
    ghost var a := ViewOf(s, all);
    s.Add(p);
    assert ViewOf(s, all).state == a.state && ViewOf(s, all).full == a.full;
  }

  /** One event, past the assertion that no zombie is woken. */
  method Handle(s: Scheduler, e: Event, ghost all: set<Proc>, ghost pass: map<Proc, nat>)
    requires !(e.Wake? && e.p.state == Zombie) && s.Valid() && s.procs <= all == pass.Keys
    requires (e.Wake? || e.Spawn?) ==> e.p in all
    requires forall p :: p in all ==> pass[p] == Pass(p.priority)
    modifies s, s.rq, all`left, all`right, all`parent, all`stride, all`state, all`waiting, all`runs
    modifies all`timeSlice, all`needResched, all`queued
    ensures s.Valid() && s.procs <= all
    ensures Moves(old(ViewOf(s, all)), e, ViewOf(s, all), s.idle, pass)
    ensures old(s.InWindow()) && (e.Wake? ==> Inside(old(ViewOf(s, all)), e.p, s.idle)) ==>
      && s.InWindow()
      && (e.Reschedule? ==> PicksLeast(old(ViewOf(s, all)), ViewOf(s, all), s.idle))
  {
    hide RunQueue.Valid, Ordered, Close, Inside, PicksLeast, Scheduler.Contenders, Scheduler.InWindow;
    match e
    case Reschedule => Elected(s, all, pass);
    case Wake(p) =>
      if p in s.procs { Woken(s, p, all, pass); }
    case Block =>
      if s.current != s.idle { Left(s, Sleeping, all); }
    case Quit =>
      if s.current != s.idle { Left(s, Zombie, all); }
    case Spawn(p) =>
      if p !in s.procs && p.state == Uninit { Added(s, p, all); }
  }

  /** The views of a run: each event moves from one to the next. */
  ghost predicate Succession(views: seq<View>, events: seq<Event>, idle: Proc, pass: map<Proc, nat>) {
    && |views| == |events| + 1
    && forall k :: 0 <= k < |events| ==> Moves(views[k], events[k], views[k + 1], idle, pass)
  }

  /** Every process is woken with a stride inside the window. */
  ghost predicate WokenInside(views: seq<View>, events: seq<Event>, idle: Proc)
    requires |views| > |events|
  {
    forall k :: 0 <= k < |events| && events[k].Wake? ==> Inside(views[k], events[k].p, idle)
  }

  /** Every call of the scheduler picks a process with a least stride. */
  ghost predicate AllPickLeast(views: seq<View>, events: seq<Event>, idle: Proc)
    requires |views| > |events|
  {
    forall k :: 0 <= k < |events| && events[k].Reschedule? ==> PicksLeast(views[k], views[k + 1], idle)
  }

  lemma Unmoved(v: View, idle: Proc, pass: map<Proc, nat>)
    ensures Succession([v], [], idle, pass) && AllPickLeast([v], [], idle)
  {
  }

  lemma OneMore(views: seq<View>, events: seq<Event>, v: View, e: Event, idle: Proc, pass: map<Proc, nat>)
    requires Succession(views, events, idle, pass) && Moves(views[|events|], e, v, idle, pass)
    ensures Succession(views + [v], events + [e], idle, pass)
    ensures WokenInside(views + [v], events + [e], idle) ==>
      WokenInside(views, events, idle) && (e.Wake? ==> Inside(views[|events|], e.p, idle))
    ensures AllPickLeast(views, events, idle) && (e.Reschedule? ==> PicksLeast(views[|events|], v, idle)) ==>
      AllPickLeast(views + [v], events + [e], idle)
  {
    hide Moves, Inside, PicksLeast;
    var ws, es, n := views + [v], events + [e], |events|;
    assert forall k {:trigger es[k]} :: 0 <= k < n ==>
      ws[k] == views[k] && ws[k + 1] == views[k + 1] && es[k] == events[k];
    assert ws[n] == views[n] && ws[n + 1] == v && es[n] == e;
    if WokenInside(ws, es, idle) {
      forall k | 0 <= k < n && events[k].Wake? ensures Inside(views[k], events[k].p, idle) {
        assert es[k].Wake? && Inside(ws[k], es[k].p, idle);
      }
    }
  }

  /** Any sequence of events, up to the assertion that no zombie is woken. After every prefix the run
      queue holds each runnable process other than the running one and idle exactly once, and nothing
      else. If every process is woken with a stride inside the window, the strides stay in one window
      and every pick is least. */
  method Run(s: Scheduler, events: seq<Event>, ghost all: set<Proc>, ghost pass: map<Proc, nat>)
    returns (done: nat, ghost views: seq<View>)
    requires s.Valid() && s.procs <= all == pass.Keys
    requires forall e :: e in events && (e.Wake? || e.Spawn?) ==> e.p in all
    requires forall p :: p in all ==> pass[p] == Pass(p.priority)
    modifies s, s.rq, all`left, all`right, all`parent, all`stride, all`state, all`waiting, all`runs
    modifies all`timeSlice, all`needResched, all`queued
    ensures s.Valid() && s.procs <= all && done <= |events| && |views| == done + 1
    ensures Succession(views, events[..done], s.idle, pass)
    ensures views[0] == old(ViewOf(s, all)) && views[done] == ViewOf(s, all)
    ensures done < |events| ==> events[done].Wake? && events[done].p.state == Zombie
    ensures old(s.InWindow()) && WokenInside(views, events[..done], s.idle) ==>
      s.InWindow() && AllPickLeast(views, events[..done], s.idle)
  {
    hide Scheduler.Valid, Scheduler.InWindow, Moves, Inside, PicksLeast, Succession, WokenInside, AllPickLeast, ViewOf;
    Unmoved(ViewOf(s, all), s.idle, pass);
    done, views := 0, [ViewOf(s, all)];
    while done < |events|
      invariant s.Valid() && s.procs <= all && done <= |events| && |views| == done + 1
      invariant Succession(views, events[..done], s.idle, pass)
      invariant views[0] == old(ViewOf(s, all)) && views[done] == ViewOf(s, all)
      invariant old(s.InWindow()) && WokenInside(views, events[..done], s.idle) ==>
        s.InWindow() && AllPickLeast(views, events[..done], s.idle)
    {
      if events[done].Wake? && events[done].p.state == Zombie {
        return;
      }
      Handle(s, events[done], all, pass);
      assert events[..done + 1] == events[..done] + [events[done]];
      OneMore(views, events[..done], ViewOf(s, all), events[done], s.idle, pass);
      views := views + [ViewOf(s, all)];
      done := done + 1;
    }
  }

  /** A process that blocks or quits does not compete, and is not switched to, until somebody wakes it. */
  lemma {:induction false} AwayUntilWoken(views: seq<View>, events: seq<Event>, idle: Proc, pass: map<Proc, nat>,
                                          j: nat, k: nat)
    requires Succession(views, events, idle, pass) && j < k <= |events|
    requires (events[j].Block? || events[j].Quit?) && views[j].current != idle
    requires forall n :: j < n < k ==> events[n] != Wake(views[j].current)
    ensures var p := views[j].current;
      && p in views[k].state && (views[k].state[p] == Sleeping || views[k].state[p] == Zombie)
      && p !in Competing(views[k], idle)
      && (views[k].current == p ==> forall n :: j < n < k ==> !events[n].Reschedule?)
    decreases k
  {
    var p := views[j].current;
    assert Moves(views[k - 1], events[k - 1], views[k], idle, pass);
    if j < k - 1 {
      AwayUntilWoken(views, events, idle, pass, j, k - 1);
    }
  }

  /** One turn extends the run of least picks. */
  method Turn(s: Scheduler, ghost full: map<Proc, nat>, ghost pass: map<Proc, nat>, ghost t: Trace<Proc>)
    requires s.Valid() && s.InWindow() && s.Contenders() != {}
    requires full.Keys == pass.Keys == s.procs && forall p :: p in s.procs ==> pass[p] == Pass(p.priority)
    requires s.Contenders() <= s.procs && LeastPicks(full, pass, s.Contenders(), t) && s.full == After(full, pass, t)
    modifies s`current, s`full, s.rq, s.procs`left, s.procs`right, s.procs`parent, s.procs`stride, s.procs`runs
    modifies s.current`timeSlice, s.current`queued, s.current`needResched
    ensures s.Valid() && s.InWindow() && s.Contenders() == old(s.Contenders())
    ensures LeastPicks(full, pass, s.Contenders(), Pick(t, s.current))
    ensures s.full == After(full, pass, Pick(t, s.current))
    ensures forall p :: p in s.procs ==> p.runs == old(p.runs) + if p == s.current then 1 else 0
  {
    hide Scheduler.Valid, Scheduler.InWindow;
    s.Schedule();
    assert s.full == old(s.full)[s.current := old(s.full)[s.current] + pass[s.current]];
  }

  /** Reschedules `n` times while nobody sleeps, wakes or dies: the processes picked form a run of
      least picks, so everything StrideShare proves holds of them. */
  method Share(s: Scheduler, n: nat, ghost pass: map<Proc, nat>) returns (ghost t: Trace<Proc>)
    requires s.Valid() && s.InWindow() && s.Contenders() != {}
    requires pass.Keys == s.procs && forall p :: p in s.procs ==> pass[p] == Pass(p.priority)
    modifies s, s.rq, s.procs`left, s.procs`right, s.procs`parent, s.procs`stride, s.procs`runs
    modifies s.procs`timeSlice, s.procs`queued, s.procs`needResched
    ensures s.Valid() && s.InWindow() && s.Contenders() == old(s.Contenders()) && s.procs == old(s.procs)
    ensures Length(t) == n && LeastPicks(old(s.full), pass, s.Contenders(), t)
    ensures s.full == After(old(s.full), pass, t)
    ensures forall p :: p in s.procs ==> p.runs == old(p.runs) + Picks(t)[p]
  {
    hide Scheduler.Valid, Scheduler.InWindow, Scheduler.Contenders, LeastPicks, After, Picks, Length;
    NoPicks(s, pass);
    t := Start;
    for i := 0 to n
      invariant s.Valid() && s.InWindow() && s.Contenders() == old(s.Contenders()) && s.procs == old(s.procs)
      invariant s.Contenders() <= s.procs == s.full.Keys && s.procs == old(s.full).Keys
      invariant forall p :: p in s.procs ==> p.runs == old(p.runs) + Picks(t)[p]
      invariant Length(t) == i && LeastPicks(old(s.full), pass, s.Contenders(), t)
      invariant s.full == After(old(s.full), pass, t)
    {
      CurrentThere(s);
      Turn(s, old(s.full), pass, t);
      OneMorePick(t, s.current);
      t := Pick(t, s.current);
    }
  }

  lemma CurrentThere(s: Scheduler)
    requires s.Valid()
    ensures s.current in s.procs
  {
    hide RunQueue.Valid;
  }

  lemma OneMorePick(t: Trace<Proc>, c: Proc)
    ensures Length(Pick(t, c)) == Length(t) + 1
    ensures forall p :: Picks(Pick(t, c))[p] == Picks(t)[p] + if p == c then 1 else 0
  {
  }

  lemma NoPicks(s: Scheduler, pass: map<Proc, nat>)
    requires s.Valid() && pass.Keys == s.procs
    ensures s.procs == s.full.Keys && s.Contenders() <= s.procs
    ensures LeastPicks(s.full, pass, s.Contenders(), Start) && After(s.full, pass, Start) == s.full
    ensures Length<Proc>(Start) == 0 && forall p: Proc :: Picks(Start)[p] == 0
  {
  }

  /** Over any number of calls of the scheduler any two competitors run in proportion to their priorities: for each
      unit of priority one runs at most once more often than the other, but for the initial distance and the
      rounding of passes, which count by BIG_STRIDE. */
  method ShareOut(s: Scheduler, n: nat, ghost p: Proc, ghost q: Proc) returns (ghost t: Trace<Proc>)
    requires s.Valid() && s.InWindow() && p in s.Contenders() && q in s.Contenders()
    modifies s, s.rq, s.procs`left, s.procs`right, s.procs`parent, s.procs`stride, s.procs`runs
    modifies s.procs`timeSlice, s.procs`queued, s.procs`needResched
    ensures s.Valid() && s.InWindow() && s.Contenders() == old(s.Contenders()) && s.procs == old(s.procs)
    ensures Length(t) == n && forall r :: r in s.procs ==> r.runs == old(r.runs) + Picks(t)[r]
    ensures p in old(s.full) && q in old(s.full) && p.runs >= old(p.runs) && q.runs >= old(q.runs)
    ensures var x, y := (p.runs - old(p.runs)) as real, (q.runs - old(q.runs)) as real;
      var gap: real := (old(s.full)[q] as real) - (old(s.full)[p] as real);
      x / (Weight(p.priority) as real) - y / (Weight(q.priority) as real) <= 1.0 + (gap + x) / (BIG_STRIDE as real)
  {
    hide Scheduler.Valid, Scheduler.InWindow, Scheduler.Contenders, LeastPicks, Close, Weight, Picks, Pass, Length, After;
    ghost var full, priority := s.full, map p | p in s.procs :: p.priority;
    ghost var pass := map p | p in s.procs :: Pass(p.priority);
    NoPicks(s, pass);
    WindowClose(s);
    t := Share(s, n, pass);
    ShareByPriority(full, priority, pass, s.Contenders(), t, p, q);
  }

  lemma WindowClose(s: Scheduler)
    requires s.InWindow()
    ensures Close(s.Contenders(), s.full)
  {
  }
}
