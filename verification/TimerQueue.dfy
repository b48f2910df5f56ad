/** The delta-encoded timer list of lab8/kern/schedule/sched.c: each timer stores the ticks that
    pass between its predecessor and itself. The ghost fields `clock` and `due` are the simple view
    every operation is specified on: each timer fires at a fixed time. */
module TimerQueue {
  import opened Seqs
  import opened Words

  /** `timer_t`; the field is an `unsigned int`, so nothing may be assigned to it that would wrap. */
  class Timer {
    var expires: u32

    constructor (expires: u32)
      ensures this.expires == expires
    {
      this.expires := expires;
    }
  }

  ghost function Repeat(x: int, n: nat): (r: seq<int>)
    ensures |r| == n && forall k :: 0 <= k < n ==> r[k] == x
  {
    seq(n, _ => x)
  }

  lemma OneMore(x: int, n: nat)
    ensures Repeat(x, 0) == [] && Repeat(x, n) + [x] == Repeat(x, n + 1)
  {
  }

  lemma BehindIn<T>(whole: seq<T>, done: seq<T>, rest: seq<T>)
    requires whole == done + rest
    ensures forall k :: 0 <= k < |rest| ==> rest[k] in whole
  {
    assert forall k :: 0 <= k < |rest| ==> rest[k] == whole[|done| + k];
  }

  lemma Shifted<T>(whole: seq<T>, done: seq<T>, rest: seq<T>, x: T, rest': seq<T>)
    requires whole == done + rest && rest == [x] + rest'
    ensures whole == (done + [x]) + rest' && |rest'| < |rest|
  {
  }

  /** One element moves over from the rest to the part already dealt with. */
  lemma MoveOver<T>(done: seq<T>, rest: seq<T>)
    requires rest != []
    ensures done + rest == (done + [rest[0]]) + Without(rest, 0)
  {
  }

  // ---------- distances and times ----------

  /** The time before position `k`: when the preceding timer is due, or now. */
  ghost function Before(due: seq<int>, clock: int, k: nat): int
    requires k <= |due|
  {
    if k == 0 then clock else due[k - 1]
  }

  /** `d` holds the distance of each time from the one before it. */
  ghost predicate Encodes(d: seq<nat>, due: seq<int>, clock: int) {
    |d| == |due| && forall k {:trigger d[k]} :: 0 <= k < |d| ==> d[k] == due[k] - Before(due, clock, k)
  }

  lemma HeadDue(d: seq<nat>, due: seq<int>, clock: int)
    requires Encodes(d, due, clock) && |d| > 0
    ensures |due| == |d| && due[0] == clock + d[0]
  {
    assert d[0] == due[0] - Before(due, clock, 0);
  }

  lemma {:induction false} TimesAscend(d: seq<nat>, due: seq<int>, clock: int, i: nat, j: nat)
    requires Encodes(d, due, clock) && i <= j < |d|
    ensures clock <= due[i] <= due[j]
  {
    assert d[j] == due[j] - Before(due, clock, j);
    if i < j {
      TimesAscend(d, due, clock, i, j - 1);
    } else if i > 0 {
      TimesAscend(d, due, clock, i - 1, i - 1);
    }
  }

  /** Position `k` is behind all times up to `e` and in front of all later ones. */
  ghost predicate Position(due: seq<int>, k: nat, e: int) {
    && k <= |due|
    && (forall j :: 0 <= j < k ==> due[j] <= e)
    && forall j :: k <= j < |due| ==> due[j] > e
  }

  /** A time between two neighbours lies between all times before and all times after them. */
  lemma Between(d: seq<nat>, due: seq<int>, clock: int, k: nat, e: int)
    requires Encodes(d, due, clock) && k <= |d|
    requires Before(due, clock, k) <= e && (k < |d| ==> e < due[k])
    ensures Position(due, k, e)
  {
    forall j | 0 <= j < k ensures due[j] <= e { TimesAscend(d, due, clock, j, k - 1); }
    forall j | k <= j < |due| ensures due[j] > e { TimesAscend(d, due, clock, k, j); }
  }

  /** All times are later than now when the first distance is positive. */
  lemma AllPending(d: seq<nat>, due: seq<int>, clock: int)
    requires Encodes(d, due, clock) && (d != [] ==> d[0] > 0)
    ensures forall k :: 0 <= k < |due| ==> due[k] > clock
  {
    forall k | 0 <= k < |due| ensures due[k] > clock {
      assert d[0] == due[0] - Before(due, clock, 0);
      TimesAscend(d, due, clock, 0, k);
    }
  }

  /** `d` after the distance at `k` was shortened for a new time `e` in front of it. */
  ghost function Split(d: seq<nat>, due: seq<int>, clock: int, k: nat, e: int): seq<nat>
    requires Encodes(d, due, clock) && k <= |d|
    requires Before(due, clock, k) <= e && (k < |d| ==> e <= due[k])
  {
    With(if k < |d| then d[k := due[k] - e] else d, k, e - Before(due, clock, k))
  }

  lemma SplitEncodes(d: seq<nat>, due: seq<int>, clock: int, k: nat, e: int)
    requires Encodes(d, due, clock) && k <= |d|
    requires Before(due, clock, k) <= e && (k < |d| ==> e <= due[k])
    ensures Encodes(Split(d, due, clock, k, e), With(due, k, e), clock)
  {
    var d', due' := Split(d, due, clock, k, e), With(due, k, e);
    forall j | 0 <= j < |d'| ensures d'[j] == due'[j] - Before(due', clock, j) {
      if j < k {
        assert d[j] == due[j] - Before(due, clock, j);
      } else if j > k + 1 {
        assert d[j - 1] == due[j - 1] - Before(due, clock, j - 1);
      }
    }
  }

  /** `d` after the distance at `k` was merged into the next one. */
  ghost function Joined(d: seq<nat>, k: nat): seq<nat>
    requires k < |d|
  {
    Without(if k + 1 < |d| then d[k + 1 := d[k + 1] + d[k]] else d, k)
  }

  lemma JoinedEncodes(d: seq<nat>, due: seq<int>, clock: int, k: nat)
    requires Encodes(d, due, clock) && k < |d|
    ensures Encodes(Joined(d, k), Without(due, k), clock)
  {
    var d', due' := Joined(d, k), Without(due, k);
    assert d[k] == due[k] - Before(due, clock, k);
    forall j | 0 <= j < |d'| ensures d'[j] == due'[j] - Before(due', clock, j) {
      if j < k {
        assert d[j] == due[j] - Before(due, clock, j);
      } else {
        assert d[j + 1] == due[j + 1] - Before(due, clock, j + 1);
      }
    }
  }

  class TimerList {
    var list: seq<Timer>
    ghost var clock: int
    ghost var due: seq<int>
    ghost var gaps: seq<nat>     // what the timers store

    constructor ()
      ensures Valid() && list == []
    {
      list, clock, due, gaps := [], 0, [], [];
    }

    ghost predicate Shape()
      reads this, list`expires
    {
      && NoDuplicates(list) && |gaps| == |list| && Encodes(gaps, due, clock)
      && (forall k :: 0 <= k < |list| ==> list[k].expires == gaps[k])
      && forall k :: 0 <= k < |due| ==> clock <= due[k] < clock + WORD
    }

    /** Between operations no timer is overdue: the first distance is positive. */
    ghost predicate Valid()
      reads this, list`expires
    {
      Shape() && (list != [] ==> 0 < list[0].expires)
    }

    /** The loop of `add_timer`: walks to the first timer due later, turning the new timer's time
        into a distance on the way and shortening the distance behind it. */
    method Approach(t: Timer) returns (i: nat)
      requires Valid() && t !in list && 0 < t.expires < WORD
      modifies t`expires, list`expires
      ensures i <= |list|
      ensures var e := clock + old(t.expires);
        && Before(due, clock, i) <= e && (i < |list| ==> e < due[i])
        && t.expires == e - Before(due, clock, i)
        && forall k :: 0 <= k < |list| ==> list[k].expires == if k == i then due[i] - e else gaps[k]
    {
      ghost var e := clock + t.expires;
      i := 0;
      while i < |list|
        invariant 0 <= i <= |list| && Valid()
        invariant t.expires == e - Before(due, clock, i)
      {
        var next := list[i];
        assert gaps[i] == due[i] - Before(due, clock, i);
        if t.expires < next.expires {
          next.expires := next.expires - t.expires;
          return;
        }
        t.expires := t.expires - next.expires;
        i := i + 1;
      }
    }

    /** Links the timer in; the distances around it have been adjusted. */
    method Place(t: Timer, i: nat, ghost e: int)
      requires NoDuplicates(list) && t !in list && i <= |list| == |gaps| && Encodes(gaps, due, clock)
      requires clock < e < clock + WORD && forall k :: 0 <= k < |due| ==> clock <= due[k] < clock + WORD
      requires Before(due, clock, i) <= e && (i < |list| ==> e < due[i]) && (0 < i ==> 0 < gaps[0])
      requires t.expires == e - Before(due, clock, i)
      requires forall k :: 0 <= k < |list| ==> list[k].expires == if k == i then due[i] - e else gaps[k]
      modifies this`list, this`due, this`gaps
      ensures Valid()
      ensures list == With(old(list), i, t) && due == With(old(due), i, e)
    {
      SplitEncodes(gaps, due, clock, i, e);
      gaps := Split(gaps, due, clock, i, e);
      list := With(list, i, t);
      due := With(due, i, e);
      forall j | 0 <= j < |list| ensures list[j].expires == gaps[j] {
        if j > i { assert list[j] == old(list[j - 1]); }
      }
    }

    /** `add_timer`: the new timer goes behind all timers that are due no later. */
    method Add(t: Timer) returns (at: nat)
      requires Valid() && t !in list && 0 < t.expires < WORD
      modifies this`list, this`due, this`gaps, t`expires, list`expires
      ensures Valid() && |old(list)| == |old(due)| && at <= |old(list)|
      ensures list == With(old(list), at, t) && due == With(old(due), at, clock + old(t.expires))
      ensures Position(old(due), at, clock + old(t.expires))
    {
      ghost var e := clock + t.expires;
      at := Approach(t);
      Between(gaps, due, clock, at, e);
      Place(t, at, e);
    }

    /** Unlinks a timer whose distance has been added to the next one. */
    method Unlink(k: nat)
      requires k < |list| == |gaps| && NoDuplicates(list) && Encodes(gaps, due, clock)
      requires forall j :: 0 <= j < |due| ==> clock <= due[j] < clock + WORD
      requires forall j :: 0 <= j < |list| ==> list[j].expires == gaps[j] + if j == k + 1 then gaps[k] else 0
      modifies this`list, this`due, this`gaps
      ensures Shape() && list == Without(old(list), k) && due == Without(old(due), k)
    {
      JoinedEncodes(gaps, due, clock, k);
      NoDuplicatesWithout(list, k);
      list := Without(list, k);
      due := Without(due, k);
      gaps := Joined(gaps, k);
      forall j | 0 <= j < |list| ensures list[j].expires == gaps[j] {
        if j >= k { assert list[j] == old(list[j + 1]); }
      }
    }

    /** `del_timer`: the other timers keep their times. */
    method Delete(t: Timer, ghost k: nat)
      requires Shape() && (t in list ==> k < |list| && list[k] == t)
      modifies this`list, this`due, this`gaps, list`expires
      ensures Shape()
      ensures t !in old(list) ==> list == old(list) && due == old(due)
      ensures t in old(list) ==> list == Without(old(list), k) && due == Without(old(due), k)
    {
      if t in list {
        var i :| 0 <= i < |list| && list[i] == t;
        if t.expires != 0 {
          if i + 1 < |list| {
            var next := list[i + 1];
            next.expires := next.expires + t.expires;
          }
        }
        Unlink(i);
      }
    }

    /** One tick passes: only the first timer's distance shrinks. */
    method Advance()
      requires Valid() && list != []
      modifies this`clock, this`gaps, list`expires
      ensures Shape() && clock == old(clock) + 1
    {
      AllPending(gaps, due, clock);
      clock := clock + 1;
      list[0].expires := list[0].expires - 1;
      ghost var d := gaps;
      gaps := gaps[0 := gaps[0] - 1];
      forall k | 0 <= k < |gaps| ensures gaps[k] == due[k] - Before(due, clock, k) {
        assert d[k] == due[k] - Before(due, clock - 1, k);
      }
    }

    /** The loop of `run_timer_list`: takes the timers out whose distance has come down to zero. */
    method Fire() returns (fired: seq<Timer>)
      requires Shape() && list != []
      modifies this`list, this`due, this`gaps, list`expires
      ensures Valid() && old(list) == fired + list && old(due) == Repeat(clock, |fired|) + due
    {
      hide Shape, Repeat;
      fired := [];
      OneMore(clock, 0);
      var timer := list[0];
      while timer.expires == 0
        invariant Shape() && list != [] && timer == list[0]
        invariant old(list) == fired + list && old(due) == Repeat(clock, |fired|) + due
        decreases |list|
      {
        ghost var l, d := list, due;
        OneMore(clock, |fired|);
        BehindIn(old(list), fired, list);
        DeleteFirst();
        Shifted(old(list), fired, l, timer, list);
        Shifted(old(due), Repeat(clock, |fired|), d, clock, due);
        fired := fired + [timer];
        if list == [] { break; }
        timer := list[0];
      }
      ShapeValid();
    }

    /** The first timer, due now, is taken out. */
    method DeleteFirst()
      requires Shape() && list != [] && list[0].expires == 0
      modifies this`list, this`due, this`gaps, list`expires
      ensures Shape() && old(list) == [old(list)[0]] + list && old(due) == [clock] + due
    {
      hide Shape, Without;
      HeadNow();
      MoveOver([], list);
      MoveOver([], due);
      Delete(list[0], 0);
    }

    lemma HeadNow()
      requires Shape() && list != []
      ensures due != [] && due[0] == clock + list[0].expires
    {
      hide Encodes, NoDuplicates;
      HeadDue(gaps, due, clock);
    }

    lemma ShapePending()
      requires Shape() && forall k :: 0 <= k < |due| ==> due[k] > clock
      ensures Valid()
    {
      if list != [] { HeadDue(gaps, due, clock); }
    }

    lemma ShapeValid()
      requires Shape() && (list != [] ==> list[0].expires != 0)
      ensures Valid()
    {
    }

    /** `run_timer_list`: one tick. Exactly the timers due now fire, in list order. */
    method Tick() returns (fired: seq<Timer>)
      requires Valid()
      modifies this, list`expires
      ensures Valid() && clock == old(clock) + 1
      ensures old(list) == fired + list && old(due) == Repeat(clock, |fired|) + due
      ensures forall k :: 0 <= k < |due| ==> due[k] > clock
    {
      if list == [] {
        clock := clock + 1;
        return [];
      }
      Advance();
      fired := Fire();
      AllPending(gaps, due, clock);
    }
  }

  // ---------- absolute deadlines ----------

  /** A timer and the time it was set for. */
  datatype Alarm<T> = Alarm(timer: T, at: int)

  /** The simple view of the whole: pending alarms in the order in which they were set, and the timers
      that each tick has fired. */
  datatype World<T> = World(clock: int, pending: seq<Alarm<T>>, fired: seq<seq<T>>)

  datatype Event<T> = Start(timer: T, ticks: u32) | Cancel(timer: T) | Clock

  /** The timers set for time `e`, in order. */
  function DueAt<T>(p: seq<Alarm<T>>, e: int): seq<T> {
    if p == [] then [] else (if p[0].at == e then [p[0].timer] else []) + DueAt(p[1..], e)
  }

  /** The alarms set for other times. */
  function NotDue<T>(p: seq<Alarm<T>>, e: int): seq<Alarm<T>> {
    if p == [] then [] else (if p[0].at == e then [] else [p[0]]) + NotDue(p[1..], e)
  }

  /** The alarms of other timers. */
  function Dropping<T(==)>(p: seq<Alarm<T>>, t: T): seq<Alarm<T>> {
    if p == [] then [] else (if p[0].timer == t then [] else [p[0]]) + Dropping(p[1..], t)
  }

  ghost predicate IsPending<T>(p: seq<Alarm<T>>, t: T) {
    exists k :: 0 <= k < |p| && p[k].timer == t
  }

  /** The assertions of `add_timer`. */
  ghost predicate Allowed<T>(w: World<T>, e: Event<T>) {
    e.Start? ==> e.ticks > 0 && !IsPending(w.pending, e.timer)
  }

  function After<T(==)>(w: World<T>, e: Event<T>): World<T> {
    match e
    case Start(t, n) => w.(pending := w.pending + [Alarm(t, w.clock + n)])
    case Cancel(t) => w.(pending := Dropping(w.pending, t))
    case Clock => World(w.clock + 1, NotDue(w.pending, w.clock + 1), w.fired + [DueAt(w.pending, w.clock + 1)])
  }

  function Replay<T(==)>(w: World<T>, events: seq<Event<T>>): World<T> {
    if events == [] then w else After(Replay(w, events[..|events| - 1]), events[|events| - 1])
  }

  /** The first `n` events pass the assertions. */
  ghost predicate AllAllowed<T>(w: World<T>, events: seq<Event<T>>, n: nat) {
    n <= |events| && forall i :: 0 <= i < n ==> Allowed(Replay(w, events[..i]), events[i])
  }

  /** Both hold the same alarms, those for the same time in the same order. */
  ghost predicate SameAlarms<T>(a: seq<Alarm<T>>, b: seq<Alarm<T>>) {
    forall e: int :: DueAt(a, e) == DueAt(b, e)
  }

  ghost function Alarms<T>(list: seq<T>, due: seq<int>): (r: seq<Alarm<T>>)
    requires |list| == |due|
    ensures |r| == |list| && forall k :: 0 <= k < |r| ==> r[k] == Alarm(list[k], due[k])
  {
    seq(|list|, k requires 0 <= k < |list| => Alarm(list[k], due[k]))
  }

  lemma {:induction false} DueParts<T>(a: seq<Alarm<T>>, b: seq<Alarm<T>>, e: int)
    ensures DueAt(a + b, e) == DueAt(a, e) + DueAt(b, e)
  {
    if a == [] {
      assert a + b == b;
    } else {
      var c, head := a + b, if a[0].at == e then [a[0].timer] else [];
      assert c[0] == a[0] && c[1..] == a[1..] + b;
      DueParts(a[1..], b, e);
      assert DueAt(c, e) == head + DueAt(c[1..], e) && DueAt(a, e) == head + DueAt(a[1..], e);
    }
  }

  lemma {:induction false} NoneDue<T>(p: seq<Alarm<T>>, e: int)
    requires forall k :: 0 <= k < |p| ==> p[k].at != e
    ensures DueAt(p, e) == []
  {
    if p != [] {
      NoneDue(p[1..], e);
    }
  }

  lemma {:induction false} AllDue<T>(list: seq<T>, due: seq<int>, e: int)
    requires |list| == |due| && forall k :: 0 <= k < |due| ==> due[k] == e
    ensures DueAt(Alarms(list, due), e) == list
  {
    if list != [] {
      assert Alarms(list, due)[1..] == Alarms(list[1..], due[1..]);
      AllDue(list[1..], due[1..], e);
    }
  }

  lemma {:induction false} OtherTimes<T>(p: seq<Alarm<T>>, now: int, e: int)
    ensures DueAt(NotDue(p, now), e) == if e == now then [] else DueAt(p, e)
  {
    if p != [] {
      OtherTimes(p[1..], now, e);
      DueParts(if p[0].at == now then [] else [p[0]], NotDue(p[1..], now), e);
    }
  }

  lemma {:induction false} OtherTimers<T>(p: seq<Alarm<T>>, t: T, e: int)
    ensures DueAt(Dropping(p, t), e) == Excluding(DueAt(p, e), t)
  {
    if p != [] {
      OtherTimers(p[1..], t, e);
      DueParts(if p[0].timer == t then [] else [p[0]], Dropping(p[1..], t), e);
      ExcludingParts(if p[0].at == e then [p[0].timer] else [], DueAt(p[1..], e), t);
    }
  }

  lemma {:induction false} DroppingOnce<T>(p: seq<Alarm<T>>, k: nat)
    requires k < |p| && forall i, j :: 0 <= i < j < |p| ==> p[i].timer != p[j].timer
    ensures Dropping(p, p[k].timer) == Without(p, k)
  {
    if k == 0 {
      DroppingNone(p[1..], p[0].timer);
    } else {
      DroppingOnce(p[1..], k - 1);
      assert Without(p, k) == [p[0]] + Without(p[1..], k - 1);
    }
  }

  lemma {:induction false} DroppingNone<T>(p: seq<Alarm<T>>, t: T)
    requires !IsPending(p, t)
    ensures Dropping(p, t) == p
  {
    if p != [] {
      assert p[0].timer != t;
      forall k | 0 <= k < |p[1..]| ensures p[1..][k].timer != t {
        assert p[k + 1].timer != t;
      }
      DroppingNone(p[1..], t);
    }
  }

  lemma {:induction false} DueIsPending<T>(p: seq<Alarm<T>>, t: T, e: int)
    requires t in DueAt(p, e)
    ensures IsPending(p, t)
  {
    if p[0].at == e && p[0].timer == t {
    } else {
      DueIsPending(p[1..], t, e);
      var k :| 0 <= k < |p[1..]| && p[1..][k].timer == t;
      assert p[k + 1].timer == t;
    }
  }

  lemma {:induction false} PendingIsDue<T>(p: seq<Alarm<T>>, k: nat)
    requires k < |p|
    ensures p[k].timer in DueAt(p, p[k].at)
  {
    if k > 0 {
      PendingIsDue(p[1..], k - 1);
    }
  }

  /** The same timers are pending. */
  lemma SameTimers<T>(a: seq<Alarm<T>>, b: seq<Alarm<T>>, t: T)
    requires SameAlarms(a, b) && IsPending(a, t)
    ensures IsPending(b, t)
  {
    var k :| 0 <= k < |a| && a[k].timer == t;
    PendingIsDue(a, k);
    assert DueAt(a, a[k].at) == DueAt(b, a[k].at);
    DueIsPending(b, t, a[k].at);
  }

  /** A new alarm goes behind those due no later and in front of all due later. */
  lemma SameWith<T>(list: seq<T>, due: seq<int>, p: seq<Alarm<T>>, k: nat, t: T, e: int)
    requires |list| == |due| && SameAlarms(Alarms(list, due), p) && Position(due, k, e)
    ensures SameAlarms(Alarms(With(list, k, t), With(due, k, e)), p + [Alarm(t, e)])
  {
    var a := Alarms(list, due);
    var l, r := a[..k], a[k..];
    assert a == l + r;
    assert Alarms(With(list, k, t), With(due, k, e)) == (l + [Alarm(t, e)]) + r;
    forall x: int ensures DueAt((l + [Alarm(t, e)]) + r, x) == DueAt(p + [Alarm(t, e)], x) {
      DueParts(l + [Alarm(t, e)], r, x);
      DueParts(l, [Alarm(t, e)], x);
      DueParts(l, r, x);
      DueParts(p, [Alarm(t, e)], x);
      if x == e { NoneDue(r, x); }
    }
  }

  lemma SameWithout<T>(list: seq<T>, due: seq<int>, p: seq<Alarm<T>>, k: nat)
    requires |list| == |due| && k < |list| && NoDuplicates(list) && SameAlarms(Alarms(list, due), p)
    ensures SameAlarms(Alarms(Without(list, k), Without(due, k)), Dropping(p, list[k]))
  {
    var a := Alarms(list, due);
    assert Alarms(Without(list, k), Without(due, k)) == Without(a, k);
    DroppingOnce(a, k);
    forall x: int ensures DueAt(Without(a, k), x) == DueAt(Dropping(p, list[k]), x) {
      OtherTimers(a, list[k], x);
      OtherTimers(p, list[k], x);
    }
  }

  /** What is in front of the list for time `now`, with only later times behind, is what is due. */
  lemma SameFired<T>(fired: seq<T>, list: seq<T>, due: seq<int>, p: seq<Alarm<T>>, now: int)
    requires |list| == |due| && forall k :: 0 <= k < |due| ==> due[k] > now
    requires SameAlarms(Alarms(fired + list, Repeat(now, |fired|) + due), p)
    ensures fired == DueAt(p, now) && SameAlarms(Alarms(list, due), NotDue(p, now))
  {
    var a, b := Alarms(fired, Repeat(now, |fired|)), Alarms(list, due);
    assert Alarms(fired + list, Repeat(now, |fired|) + due) == a + b;
    forall x: int ensures DueAt(b, x) == DueAt(NotDue(p, now), x) {
      OtherTimes(p, now, x);
      DueParts(a, b, x);
      if x == now { NoneDue(b, x); } else { NoneDue(a, x); }
    }
    AllDue(fired, Repeat(now, |fired|), now);
    DueParts(a, b, now);
    NoneDue(b, now);
  }

  /** The delta list stands for the pending alarms. */
  ghost predicate Shows(q: TimerList, w: World<Timer>)
    reads q
  {
    q.clock == w.clock && |q.list| == |q.due| && SameAlarms(Alarms(q.list, q.due), w.pending)
  }

  lemma ListIsPending<T>(list: seq<T>, due: seq<int>, p: seq<Alarm<T>>, t: T)
    requires |list| == |due| && SameAlarms(Alarms(list, due), p)
    ensures t in list <==> IsPending(p, t)
  {
    var a := Alarms(list, due);
    if t in list {
      var k :| 0 <= k < |list| && list[k] == t;
      assert a[k].timer == t;
      SameTimers(a, p, t);
    }
    if IsPending(p, t) {
      SameTimers(p, a, t);
    }
  }

  method Set(q: TimerList, t: Timer, n: u32, ghost w: World<Timer>) returns (ok: bool)
    requires q.Valid() && Shows(q, w)
    modifies q, q.list, t
    ensures q.Valid() && (ok <==> Allowed(w, Start(t, n))) && (ok <==> n > 0 && t !in old(q.list))
    ensures Shows(q, if ok then After(w, Start(t, n)) else w)
    ensures !ok ==> q.list == old(q.list)
    ensures forall x :: x in q.list ==> x in old(q.list) || x == t
  {
    hide SameAlarms, Alarms, Encodes, Position, Repeat;
    ListIsPending(q.list, q.due, w.pending, t);
    if t in q.list || n == 0 {
      return false;
    }
    t.expires := n;
    ghost var l, d := q.list, q.due;
    var at := q.Add(t);
    SameWith(l, d, w.pending, at, t, q.clock + n);
    return true;
  }

  method Unset(q: TimerList, t: Timer, ghost w: World<Timer>)
    requires q.Valid() && Shows(q, w)
    modifies q, q.list
    ensures q.Valid() && Shows(q, After(w, Cancel(t)))
    ensures forall x :: x in q.list ==> x in old(q.list)
  {
    hide SameAlarms, Alarms, Encodes, Dropping, TimerList.Valid, TimerList.Shape;
    NoneOverdue(q);
    ShapeOf(q);
    ghost var k := 0;
    ListIsPending(q.list, q.due, w.pending, t);
    if t in q.list {
      k :| 0 <= k < |q.list| && q.list[k] == t;
      SameWithout(q.list, q.due, w.pending, k);
    } else {
      DroppingNone(w.pending, t);
    }
    q.Delete(t, k);
    q.ShapePending();
  }

  lemma ShapeOf(q: TimerList)
    requires q.Valid()
    ensures q.Shape() && NoDuplicates(q.list)
  {
  }

  method Pass(q: TimerList, ghost w: World<Timer>) returns (fired: seq<Timer>)
    requires q.Valid() && Shows(q, w)
    modifies q, q.list
    ensures q.Valid() && Shows(q, After(w, Clock)) && fired == DueAt(w.pending, w.clock + 1)
    ensures forall x :: x in q.list ==> x in old(q.list)
  {
    hide SameAlarms, Alarms, Encodes, NoDuplicates;
    fired := q.Tick();
    SameFired(fired, q.list, q.due, w.pending, q.clock);
  }

  /** One event does to the list what it does to the alarms; a tick fires exactly the timers set for it,
      in the order in which they were set. */
  method Step(q: TimerList, e: Event<Timer>, ghost w: World<Timer>) returns (ok: bool, fired: seq<Timer>)
    requires q.Valid() && Shows(q, w)
    modifies q, q.list, if e.Clock? then {} else {e.timer}
    ensures q.Valid() && (ok <==> Allowed(w, e))
    ensures ok <==> !(e.Start? && (e.ticks == 0 || e.timer in old(q.list)))
    ensures !ok ==> q.list == old(q.list)
    ensures Shows(q, if ok then After(w, e) else w)
    ensures e.Clock? ==> fired == DueAt(w.pending, w.clock + 1)
    ensures forall t :: t in q.list ==> t in old(q.list) || (e.Start? && t == e.timer)
  {
    hide Shows, Encodes, NoDuplicates, After, IsPending;
    ok, fired := true, [];
    match e
    case Start(t, n) => ok := Set(q, t, n, w);
    case Cancel(t) => Unset(q, t, w);
    case Clock => fired := Pass(q, w);
  }

  /** Any run refines absolute deadlines: the ticks fire what they fire there, and at every point the
      list holds exactly the pending alarms. It ends early only at an assertion of `add_timer`. */
  method Run(q: TimerList, events: seq<Event<Timer>>, ghost all: set<Timer>)
    returns (done: nat, fired: seq<seq<Timer>>)
    requires q.Valid() && q.list == [] && forall e :: e in events && !e.Clock? ==> e.timer in all
    modifies q, all
    ensures q.Valid() && done <= |events|
    ensures Shows(q, Replay(World(old(q.clock), [], []), events[..done]))
    ensures fired == Replay(World(old(q.clock), [], []), events[..done]).fired
    ensures AllAllowed(World(old(q.clock), [], []), events, done)
    ensures done < |events| ==> events[done].Start? && (events[done].ticks == 0 || events[done].timer in q.list)
    ensures forall k :: 0 <= k < |q.due| ==> q.due[k] > q.clock
  {
    hide TimerList.Valid, Shows, Replay, Allowed, After, AllAllowed;
    done, fired := 0, [];
    ghost var start: World<Timer> := World(q.clock, [], []);
    ghost var w := start;
    NothingStarted(q, events);
    while done < |events|
      invariant q.Valid() && done <= |events| && (forall t :: t in q.list ==> t in all)
      invariant w == Replay(start, events[..done]) && Shows(q, w) && fired == w.fired
      invariant AllAllowed(start, events, done)
    {
      var ok, f := Step(q, events[done], w);
      if !ok {
        break;
      }
      if events[done].Clock? {
        fired := fired + [f];
      }
      AllowedMore(start, events, done);
      ReplayMore(start, events, done);
      w := After(w, events[done]);
      done := done + 1;
    }
    NoneOverdue(q);
  }

  lemma NothingStarted(q: TimerList, events: seq<Event<Timer>>)
    requires q.Valid() && q.list == []
    ensures var w: World<Timer> := World(q.clock, [], []);
      Replay(w, events[..0]) == w && Shows(q, w) && AllAllowed(w, events, 0)
  {
  }

  lemma AllowedMore(w: World<Timer>, events: seq<Event<Timer>>, n: nat)
    requires n < |events| && AllAllowed(w, events, n) && Allowed(Replay(w, events[..n]), events[n])
    ensures AllAllowed(w, events, n + 1)
  {
    hide Replay, Allowed;
  }

  lemma ReplayMore(w: World<Timer>, events: seq<Event<Timer>>, i: nat)
    requires i < |events|
    ensures Replay(w, events[..i + 1]) == After(Replay(w, events[..i]), events[i])
    ensures After(Replay(w, events[..i]), events[i]).fired
         == Replay(w, events[..i]).fired
          + if events[i].Clock? then [DueAt(Replay(w, events[..i]).pending, Replay(w, events[..i]).clock + 1)] else []
  {
    assert events[..i + 1][..i] == events[..i];
  }

  lemma NoneOverdue(q: TimerList)
    requires q.Valid()
    ensures forall k :: 0 <= k < |q.due| ==> q.due[k] > q.clock
  {
    AllPending(q.gaps, q.due, q.clock);
  }
}
