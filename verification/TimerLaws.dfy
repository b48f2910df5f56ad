/** What the record of alarms comes to for one timer: it fires exactly at the tick that it was set for, once, and not
    at all when it is cancelled before. */
module TimerLaws {
  import opened TimerQueue

  /** The clock events among those from `i` up to `j`. */
  ghost function Ticks<T>(events: seq<Event<T>>, i: nat, j: nat): nat
    requires i <= j <= |events|
    decreases j
  {
    if i == j then 0 else Ticks(events, i, j - 1) + if events[j - 1].Clock? then 1 else 0
  }

  /** The timer has an alarm, and only for `at`. */
  ghost predicate DueOnly<T>(w: World<T>, t: T, at: int) {
    Alarm(t, at) in w.pending && forall a :: a in w.pending && a.timer == t ==> a.at == at
  }

  ghost predicate Idle<T>(w: World<T>, t: T) {
    forall a :: a in w.pending ==> a.timer != t
  }

  lemma {:induction false} InDropping<T>(p: seq<Alarm<T>>, t: T)
    ensures forall a :: a in Dropping(p, t) <==> a in p && a.timer != t
  {
    if p != [] {
      InDropping(p[1..], t);
      assert p == [p[0]] + p[1..];
    }
  }

  lemma {:induction false} InNotDue<T>(p: seq<Alarm<T>>, e: int)
    ensures forall a :: a in NotDue(p, e) <==> a in p && a.at != e
  {
    if p != [] {
      InNotDue(p[1..], e);
      assert p == [p[0]] + p[1..];
    }
  }

  lemma {:induction false} InDueAt<T>(p: seq<Alarm<T>>, e: int, t: T)
    ensures t in DueAt(p, e) <==> Alarm(t, e) in p
  {
    if p != [] {
      InDueAt(p[1..], e, t);
      assert p == [p[0]] + p[1..];
    }
  }

  /** Whether the `k`-th event, a tick, fires the timer. */
  ghost predicate FiresAt<T>(w: World<T>, events: seq<Event<T>>, k: nat, t: T)
    requires k < |events|
  {
    var fired := Replay(w, events[..k + 1]).fired;
    events[k].Clock? && fired != [] && t in fired[|fired| - 1]
  }

  lemma FiresIf<T>(w: World<T>, events: seq<Event<T>>, k: nat, t: T)
    requires k < |events| && events[k].Clock?
    ensures FiresAt(w, events, k, t) <==>
      Alarm(t, Replay(w, events[..k]).clock + 1) in Replay(w, events[..k]).pending
  {
    var v := Replay(w, events[..k]);
    assert events[..k + 1][..k] == events[..k];
    InDueAt(v.pending, v.clock + 1, t);
  }

  lemma Onward<T>(w: World<T>, events: seq<Event<T>>, i: nat)
    requires i < |events|
    ensures Replay(w, events[..i + 1]) == After(Replay(w, events[..i]), events[i])
  {
    assert events[..i + 1][..i] == events[..i];
  }

  /** An alarm stays until its time, unless it is cancelled. */
  lemma StaysDue<T>(w: World<T>, e: Event<T>, t: T, at: int)
    requires DueOnly(w, t, at) && Allowed(w, e) && e != Cancel(t) && (e.Clock? ==> w.clock + 1 != at)
    ensures DueOnly(After(w, e), t, at)
  {
    var i :| 0 <= i < |w.pending| && w.pending[i] == Alarm(t, at);
    match e {
      case Start(x, n) => assert x != t;
      case Cancel(x) => InDropping(w.pending, x);
      case Clock => InNotDue(w.pending, w.clock + 1);
    }
  }

  /** A timer without an alarm has none until it is started. */
  lemma StaysIdle<T>(w: World<T>, e: Event<T>, t: T)
    requires Idle(w, t) && !(e.Start? && e.timer == t)
    ensures Idle(After(w, e), t)
  {
    match e
    case Start(x, n) =>
    case Cancel(x) => InDropping(w.pending, x);
    case Clock => InNotDue(w.pending, w.clock + 1);
  }

  lemma {:induction false} DueUntil<T>(w: World<T>, events: seq<Event<T>>, j: nat, k: nat, t: T)
    requires j < k <= |events| && AllAllowed(w, events, k) && events[j].Start? && events[j].timer == t
    requires Ticks(events, j + 1, k) < events[j].ticks && forall i :: j < i < k ==> events[i] != Cancel(t)
    ensures var v := Replay(w, events[..k]);
      && v.clock == Replay(w, events[..j]).clock + Ticks(events, j + 1, k)
      && DueOnly(v, t, Replay(w, events[..j]).clock + events[j].ticks)
    decreases k
  {
    hide Replay, DueOnly, After;
    Onward(w, events, k - 1);
    assert Allowed(Replay(w, events[..k - 1]), events[k - 1]);
    if k == j + 1 {
      Started(Replay(w, events[..j]), events[j]);
    } else {
      DueUntil(w, events, j, k - 1, t);
      StaysDue(Replay(w, events[..k - 1]), events[k - 1], t, Replay(w, events[..j]).clock + events[j].ticks);
      ClockAfter(Replay(w, events[..k - 1]), events[k - 1]);
    }
  }

  lemma ClockAfter<T>(w: World<T>, e: Event<T>)
    ensures After(w, e).clock == w.clock + if e.Clock? then 1 else 0
  {
  }

  lemma Started<T>(w: World<T>, e: Event<T>)
    requires e.Start? && Allowed(w, e)
    ensures DueOnly(After(w, e), e.timer, w.clock + e.ticks) && After(w, e).clock == w.clock
  {
    forall a | a in w.pending ensures a.timer != e.timer {
      var i :| 0 <= i < |w.pending| && w.pending[i] == a;
    }
  }

  /** A timer that is started for `n` ticks and not cancelled fires exactly at the `n`-th tick after that. */
  lemma FiresAtItsTick<T>(w: World<T>, events: seq<Event<T>>, j: nat, k: nat, t: T)
    requires j < k < |events| && AllAllowed(w, events, k) && events[j].Start? && events[j].timer == t
    requires events[k].Clock? && Ticks(events, j + 1, k) < events[j].ticks
    requires forall i :: j < i < k ==> events[i] != Cancel(t)
    ensures FiresAt(w, events, k, t) <==> Ticks(events, j + 1, k + 1) == events[j].ticks
  {
    hide Replay, FiresAt;
    DueUntil(w, events, j, k, t);
    FiresIf(w, events, k, t);
    assert Ticks(events, j + 1, k + 1) == Ticks(events, j + 1, k) + 1;
  }

  lemma {:induction false} SilentUntil<T>(w: World<T>, events: seq<Event<T>>, j: nat, k: nat, t: T)
    requires j <= k < |events| && Idle(Replay(w, events[..j]), t)
    requires forall i :: j <= i < k ==> !(events[i].Start? && events[i].timer == t)
    ensures Idle(Replay(w, events[..k]), t) && !FiresAt(w, events, k, t)
    decreases k
  {
    hide Replay, After, FiresAt;
    if j < k {
      SilentUntil(w, events, j, k - 1, t);
      Onward(w, events, k - 1);
      StaysIdle(Replay(w, events[..k - 1]), events[k - 1], t);
    }
    if events[k].Clock? {
      FiresIf(w, events, k, t);
    } else {
      NoTick(w, events, k, t);
    }
  }

  lemma NoTick<T>(w: World<T>, events: seq<Event<T>>, k: nat, t: T)
    requires k < |events| && !events[k].Clock?
    ensures !FiresAt(w, events, k, t)
  {
  }

  /** A timer that was cancelled does not fire until it is started again. */
  lemma CancelledIsSilent<T>(w: World<T>, events: seq<Event<T>>, j: nat, k: nat, t: T)
    requires j < k < |events| && events[j] == Cancel(t)
    requires forall i :: j < i < k ==> !(events[i].Start? && events[i].timer == t)
    ensures !FiresAt(w, events, k, t)
  {
    hide Replay, FiresAt;
    Onward(w, events, j);
    InDropping(Replay(w, events[..j]).pending, t);
    SilentUntil(w, events, j + 1, k, t);
  }

  /** A timer fires once for each time that it is started. */
  lemma FiresOnce<T>(w: World<T>, events: seq<Event<T>>, j: nat, i: nat, k: nat, t: T)
    requires j < i < k < |events| && AllAllowed(w, events, i) && events[j].Start? && events[j].timer == t
    requires events[i].Clock? && Ticks(events, j + 1, i + 1) == events[j].ticks
    requires forall x :: j < x < k ==> events[x] != Cancel(t) && !(events[x].Start? && events[x].timer == t)
    ensures FiresAt(w, events, i, t) && !FiresAt(w, events, k, t)
  {
    hide Replay, FiresAt;
    assert Ticks(events, j + 1, i + 1) == Ticks(events, j + 1, i) + 1;
    FiresAtItsTick(w, events, j, i, t);
    DueUntil(w, events, j, i, t);
    Onward(w, events, i);
    InNotDue(Replay(w, events[..i]).pending, Replay(w, events[..i]).clock + 1);
    SilentUntil(w, events, i + 1, k, t);
  }
}
