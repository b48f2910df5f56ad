/** What stride scheduling promises over a run in which the same processes compete throughout:
    a run is the succession of processes picked, each with a least stride at its turn. */
module StrideShare {
  import opened ProcStruct

  datatype Trace<T> = Start | Pick(before: Trace<T>, chosen: T)

  ghost function Picks<T>(t: Trace<T>): multiset<T> {
    if t.Start? then multiset{} else Picks(t.before) + multiset{t.chosen}
  }

  ghost function Length<T>(t: Trace<T>): (n: nat)
    ensures n == |Picks(t)|
  {
    if t.Start? then 0 else Length(t.before) + 1
  }

  ghost predicate Among<T>(t: Trace<T>, s: set<T>) {
    t.Start? || (t.chosen in s && Among(t.before, s))
  }

  /** The strides after a run. */
  ghost function After<T>(full: map<T, nat>, pass: map<T, nat>, t: Trace<T>): (f: map<T, nat>)
    requires full.Keys == pass.Keys && Among(t, full.Keys)
    ensures f.Keys == full.Keys
  {
    if t.Start? then full
    else
      var f := After(full, pass, t.before);
      f[t.chosen := f[t.chosen] + pass[t.chosen]]
  }

  /** Every pick is a member of `s` that has a least stride when its turn comes. */
  ghost predicate LeastPicks<T>(full: map<T, nat>, pass: map<T, nat>, s: set<T>, older t: Trace<T>)
    requires full.Keys == pass.Keys && s <= full.Keys
    ensures LeastPicks(full, pass, s, t) ==> Among(t, s) && Among(t, full.Keys)
  {
    t.Start? ||
    (&& t.chosen in s && LeastPicks(full, pass, s, t.before)
     && var f := After(full, pass, t.before); forall p :: p in s ==> f[t.chosen] <= f[p])
  }

  /** Strides within BIG_STRIDE of each other stay so over runs of any length. */
  lemma {:induction false} WindowKept<T>(full: map<T, nat>, pass: map<T, nat>, s: set<T>, t: Trace<T>)
    requires full.Keys == pass.Keys && s <= full.Keys && LeastPicks(full, pass, s, t)
    requires Close(s, full) && forall p :: p in s ==> pass[p] <= BIG_STRIDE
    ensures Close(s, After(full, pass, t))
  {
    if t.Pick? {
      WindowKept(full, pass, s, t.before);
    }
  }

  lemma Distribute(n: nat, k: nat)
    ensures (n + 1) * k == n * k + k
  {
  }

  /** A process's stride counts its picks. */
  lemma {:induction false} StrideCountsPicks<T>(full: map<T, nat>, pass: map<T, nat>, t: Trace<T>, p: T)
    requires full.Keys == pass.Keys && Among(t, full.Keys) && p in full
    ensures p in pass && After(full, pass, t)[p] == full[p] + (Picks(t)[p] as int) * (pass[p] as int)
  {
    if t.Pick? {
      StrideCountsPicks(full, pass, t.before, p);
      Distribute(Picks(t.before)[p], pass[p]);
    }
  }

  /** Proportional share: picks times pass of any two competitors differ by at most BIG_STRIDE plus
      their initial distance. */
  lemma ProportionalShare<T>(full: map<T, nat>, pass: map<T, nat>, s: set<T>, t: Trace<T>, p: T, q: T)
    requires full.Keys == pass.Keys && s <= full.Keys && LeastPicks(full, pass, s, t)
    requires Close(s, full) && (forall r :: r in s ==> pass[r] <= BIG_STRIDE) && p in s && q in s
    ensures full[p] + Picks(t)[p] * pass[p] <= full[q] + Picks(t)[q] * pass[q] + BIG_STRIDE
  {
    WindowKept(full, pass, s, t);
    StrideCountsPicks(full, pass, t, p);
    StrideCountsPicks(full, pass, t, q);
  }

  lemma Times(x: nat, u: int, v: int)
    requires u <= v
    ensures x * u <= x * v
  {
  }

  lemma Swap(x: int, u: int, a: int)
    ensures x * (u * a) == a * (x * u)
  {
  }

  lemma Spread(x: int, u: int, v: int)
    ensures x * (u + v) == x * u + x * v && x * (u - v) == x * u - x * v
  {
  }

  /** `x` passes of `u` are at most `z`, so `x` times BIG_STRIDE is at most the weight times that, but for what
      rounding takes. */
  lemma Scaled(x: nat, u: nat, a: nat, big: nat, rest: nat, z: int)
    requires x * u <= z && big <= u * a + rest
    ensures x * big <= a * z + x * rest
  {
    Times(x, big, u * a + rest);
    Spread(x, u * a, rest);
    Swap(x, u, a);
    Times(a, x * u, z);
  }

  /** From strides to shares: `x` and `y` picks with passes `u` and `v` of weights `a` and `b`. */
  lemma Shares(x: nat, y: nat, u: nat, v: nat, a: nat, b: nat, big: nat, gap: int, rest: nat)
    requires x * u <= y * v + (big + gap) && big <= u * a + rest && v * b <= big
    ensures big * (x * b) - big * (y * a) <= a * b * (big + gap) + b * (x * rest)
  {
    Scaled(x, u, a, big, rest, y * v + (big + gap));
    Times(b, x * big, a * (y * v + (big + gap)) + x * rest);
    Spread(b, a * (y * v + (big + gap)), x * rest);
    Spread(a, y * v, big + gap);
    Spread(b, a * (y * v), a * (big + gap));
    Times(a * y, v * b, big);
    Products(x, y, v, a, b, big, big + gap);
  }

  lemma Products(x: int, y: int, v: int, a: int, b: int, big: int, c: int)
    ensures b * (x * big) == big * (x * b) && a * y * big == big * (y * a)
    ensures b * (a * (y * v)) == a * y * (v * b) && b * (a * c) == a * b * c
  {
    assert b * (a * (y * v)) == (a * y) * (v * b) by {
      assert b * (a * (y * v)) == (a * (y * v)) * b;
      assert a * (y * v) == a * y * v;
      assert a * y * v * b == a * y * (v * b);
    }
  }

  lemma Larger(k: real, u: real, v: real)
    requires k > 0.0 && u > v
    ensures k * u > k * v
  {
    assert k * (u - v) > 0.0;
  }

  lemma Cancel(k: real, u: real, v: real)
    requires k > 0.0 && k * u <= k * v
    ensures u <= v
  {
    if u > v { Larger(k, u, v); }
  }

  lemma Quotients(k: real, a: real, b: real, u: real, v: real, w: real)
    ensures k * (u * a * b) == k * a * b * u && k * (v * b * a) == k * a * b * v
    ensures a * b * (k + w * k) == k * a * b * (1.0 + w)
  {
  }

  lemma InReals(x: nat, y: nat, a: nat, b: nat, c: int)
    requires BIG_STRIDE * (x * b) - BIG_STRIDE * (y * a) <= a * b * (BIG_STRIDE + c)
    ensures var k, a', b' := BIG_STRIDE as real, a as real, b as real;
      k * ((x as real) * b') - k * ((y as real) * a') <= a' * b' * (k + c as real)
  {
    assert ((x * b) as real) == (x as real) * (b as real);
    assert ((y * a) as real) == (y as real) * (a as real);
    assert ((a * b) as real) == (a as real) * (b as real);
    assert ((a * b * (BIG_STRIDE + c)) as real) == ((a * b) as real) * ((BIG_STRIDE + c) as real);
  }

  /** In picks per unit of weight. */
  lemma PerWeight(x: nat, y: nat, a: nat, b: nat, c: int)
    requires BIG_STRIDE * (x * b) - BIG_STRIDE * (y * a) <= a * b * (BIG_STRIDE + c) && a > 0 && b > 0
    ensures (x as real) / (a as real) - (y as real) / (b as real) <= 1.0 + (c as real) / (BIG_STRIDE as real)
  {
    var k, a', b' := BIG_STRIDE as real, a as real, b as real;
    var u, v, w := (x as real) / a', (y as real) / b', (c as real) / k;
    assert (x as real) == u * a' && (y as real) == v * b' && (c as real) == w * k;
    InReals(x, y, a, b, c);
    Quotients(k, a', b', u, v, w);
    assert k * a' * b' > 0.0;
    Cancel(k * a' * b', u - v, 1.0 + w);
  }

  /** Shares go by priority: for each unit of weight, any competitor is picked at most once more often than any
      other, but for the initial distance and the rounding of passes, which count by BIG_STRIDE; a weight that
      divides BIG_STRIDE is not rounded. */
  lemma ShareByPriority<T>(full: map<T, nat>, priority: map<T, nat>, pass: map<T, nat>, s: set<T>, t: Trace<T>,
                           p: T, q: T)
    requires full.Keys == pass.Keys && s <= full.Keys && LeastPicks(full, pass, s, t)
    requires s <= priority.Keys && forall r :: r in s ==> pass[r] == Pass(priority[r])
    requires Close(s, full) && p in s && q in s
    ensures var x, y, a, b := Picks(t)[p] as real, Picks(t)[q] as real, Weight(priority[p]), Weight(priority[q]);
      var gap: real := (full[q] as real) - (full[p] as real);
      && x / (a as real) - y / (b as real) <= 1.0 + (gap + x) / (BIG_STRIDE as real)
      && (BIG_STRIDE % a == 0 ==> x / (a as real) - y / (b as real) <= 1.0 + gap / (BIG_STRIDE as real))
  {
    forall r | r in s ensures pass[r] <= BIG_STRIDE {
      PassPositive(priority[r]);
    }
    hide LeastPicks, Picks, Pass, Weight, Close;
    ProportionalShare(full, pass, s, t, p, q);
    PassExact(priority[p]);
    PassExact(priority[q]);
    Rates(Picks(t)[p], Picks(t)[q], pass[p], pass[q], Weight(priority[p]), Weight(priority[q]), full[p], full[q]);
  }

  lemma Rates(x: nat, y: nat, u: nat, v: nat, a: nat, b: nat, from: nat, to: nat)
    requires from + x * u <= to + y * v + BIG_STRIDE && a > 0 && b > 0
    requires u * a <= BIG_STRIDE < (u + 1) * a && v * b <= BIG_STRIDE
    ensures var gap: real := (to as real) - (from as real);
      && (x as real) / (a as real) - (y as real) / (b as real) <= 1.0 + (gap + x as real) / (BIG_STRIDE as real)
      && (u * a == BIG_STRIDE ==>
            (x as real) / (a as real) - (y as real) / (b as real) <= 1.0 + gap / (BIG_STRIDE as real))
  {
    var from': int, to': int := from, to;
    WeightedShare(x, y, u, v, a, b, BIG_STRIDE, to' - from');
    PerWeight(x, y, a, b, to' - from' + x);
    if u * a == BIG_STRIDE {
      PerWeight(x, y, a, b, to' - from');
    }
  }

  lemma WeightedShare(x: nat, y: nat, u: nat, v: nat, a: nat, b: nat, big: nat, gap: int)
    requires x * u <= y * v + (big + gap) && u * a <= big < (u + 1) * a && v * b <= big
    ensures big * (x * b) - big * (y * a) <= a * b * (big + (gap + x))
    ensures u * a == big ==> big * (x * b) - big * (y * a) <= a * b * (big + gap)
  {
    Spread(a, u, 1);
    Shares(x, y, u, v, a, b, big, gap, a);
    assert b * (x * a) == a * b * x;
    Spread(a * b, big + gap, x);
    if u * a == big {
      Shares(x, y, u, v, a, b, big, gap, 0);
    }
  }

  lemma {:induction false} Unpicked<T>(full: map<T, nat>, pass: map<T, nat>, t: Trace<T>, p: T)
    requires full.Keys == pass.Keys && Among(t, full.Keys) && p in full && p !in Picks(t)
    ensures After(full, pass, t)[p] == full[p]
  {
    if t.Pick? {
      Unpicked(full, pass, t.before, p);
    }
  }

  /** While `p` waits, nobody gets more than one pass ahead of it. */
  lemma {:induction false} NobodyAhead<T>(full: map<T, nat>, pass: map<T, nat>, s: set<T>, t: Trace<T>, p: T, q: T)
    requires full.Keys == pass.Keys && s <= full.Keys && LeastPicks(full, pass, s, t)
    requires p in s && p !in Picks(t) && q in Picks(t)
    ensures q in s && After(full, pass, t)[q] <= full[p] + pass[q]
  {
    if q != t.chosen {
      NobodyAhead(full, pass, s, t.before, p, q);
    } else {
      Unpicked(full, pass, t.before, p);
    }
  }

  /** A multiset over `s` in which nothing occurs more than `k` times has at most |s| * k members. */
  lemma {:induction false} BoundedCount<T>(m: multiset<T>, s: set<T>, k: nat)
    requires forall x :: x in m ==> x in s && m[x] <= k
    ensures |m| <= |s| * k
  {
    if s == {} {
      assert m == multiset{};
    } else {
      var x :| x in s;
      var m' := m[x := 0];
      BoundedCount(m', s - {x}, k);
      assert (|s| - 1) * k + k == |s| * k;
    }
  }

  lemma FewPicks(n: nat, pass: nat, lead: nat)
    requires pass > 0 && n * pass <= lead + pass
    ensures n <= lead + 1
  {
    if n > 0 {
      var m: int, k: int := n - 1, pass - 1;
      assert n * pass == m + m * k + pass;
      assert m * k >= 0;
    }
  }

  /** No starvation: if every pass is positive, a competitor is picked at the latest within
      (n - 1) * (BIG_STRIDE + 1) + 1 picks, n being the number of competitors. */
  lemma NoStarvation<T>(full: map<T, nat>, pass: map<T, nat>, s: set<T>, t: Trace<T>, p: T)
    requires full.Keys == pass.Keys && s <= full.Keys && LeastPicks(full, pass, s, t)
    requires Close(s, full) && (forall q :: q in s ==> pass[q] > 0) && p in s
    requires Length(t) > (|s| - 1) * (BIG_STRIDE + 1)
    ensures p in Picks(t)
  {
    if p !in Picks(t) {
      forall q | q in Picks(t) ensures q in s - {p} && Picks(t)[q] <= BIG_STRIDE + 1 {
        NobodyAhead(full, pass, s, t, p, q);
        StrideCountsPicks(full, pass, t, q);
        FewPicks(Picks(t)[q], pass[q], BIG_STRIDE);
      }
      BoundedCount(Picks(t), s - {p}, BIG_STRIDE + 1);
    }
  }

  /** A positive pass is needed: a competitor behind all others that never moves keeps the
      processor for ever. */
  lemma {:induction false} ZeroPassStarves<T>(full: map<T, nat>, pass: map<T, nat>, s: set<T>, t: Trace<T>, z: T)
    requires full.Keys == pass.Keys && s <= full.Keys && LeastPicks(full, pass, s, t)
    requires z in s && pass[z] == 0 && forall p :: p in s && p != z ==> full[z] < full[p]
    ensures After(full, pass, t) == full && forall p :: p in Picks(t) ==> p == z
  {
    if t.Pick? {
      ZeroPassStarves(full, pass, s, t.before, z);
    }
  }

  // ---------- who starves ----------

  /** A competitor that never moves limits every other: over runs of any length nobody gets more than
      one pass beyond it. */
  lemma {:induction false} ZeroPassLimits<T>(full: map<T, nat>, pass: map<T, nat>, s: set<T>, t: Trace<T>, z: T, q: T)
    requires full.Keys == pass.Keys && s <= full.Keys && LeastPicks(full, pass, s, t)
    requires z in s && pass[z] == 0 && q in s && q in Picks(t)
    ensures full[q] + Picks(t)[q] * pass[q] <= full[z] + pass[q]
  {
    if q != t.chosen {
      ZeroPassLimits(full, pass, s, t.before, z, q);
    } else {
      StrideCountsPicks(full, pass, t.before, z);
      StrideCountsPicks(full, pass, t.before, q);
      Distribute(Picks(t.before)[q], pass[q]);
    }
  }

  /** Every run of at least `n` picks has picked each competitor at least `k` times. */
  ghost predicate Serves<T>(full: map<T, nat>, pass: map<T, nat>, s: set<T>, k: nat, n: nat)
    requires full.Keys == pass.Keys && s <= full.Keys
  {
    forall t: Trace<T> :: LeastPicks(full, pass, s, t) && Length(t) >= n ==> forall p :: p in s ==> Picks(t)[p] >= k
  }

  ghost predicate ServesEventually<T>(full: map<T, nat>, pass: map<T, nat>, s: set<T>, k: nat)
    requires full.Keys == pass.Keys && s <= full.Keys
  {
    exists n: nat :: Serves(full, pass, s, k, n)
  }

  /** Everyone is picked again and again: for each number of picks there is a bound on the length of the
      runs that give everyone as many. */
  ghost predicate StarvationFree<T>(full: map<T, nat>, pass: map<T, nat>, s: set<T>)
    requires full.Keys == pass.Keys && s <= full.Keys
  {
    forall k: nat :: ServesEventually(full, pass, s, k)
  }

  lemma {:induction false} LeastMember<T>(f: map<T, nat>, s: set<T>) returns (m: T)
    requires s <= f.Keys && s != {}
    ensures m in s && forall p :: p in s ==> f[m] <= f[p]
  {
    m :| m in s;
    if s != {m} {
      var m' := LeastMember(f, s - {m});
      if f[m'] < f[m] { m := m'; }
      assert forall p :: p in s && p != m ==> p in s - {m} || p == m;
    }
  }

  /** There are runs of any length. */
  lemma {:induction false} LongRun<T>(full: map<T, nat>, pass: map<T, nat>, s: set<T>, n: nat) returns (t: Trace<T>)
    requires full.Keys == pass.Keys && s <= full.Keys && s != {}
    ensures LeastPicks(full, pass, s, t) && Length(t) == n
  {
    t := Start;
    if n > 0 {
      t := LongRun(full, pass, s, n - 1);
      var m := LeastMember(After(full, pass, t), s);
      t := Pick(t, m);
    }
  }

  /** If nobody ever moves, one competitor can keep the processor. */
  lemma {:induction false} Monopoly<T>(full: map<T, nat>, pass: map<T, nat>, s: set<T>, m: T, n: nat)
    returns (t: Trace<T>)
    requires full.Keys == pass.Keys && s <= full.Keys && (forall q :: q in s ==> pass[q] == 0)
    requires m in s && forall q :: q in s ==> full[m] <= full[q]
    ensures LeastPicks(full, pass, s, t) && Length(t) == n && After(full, pass, t) == full
    ensures forall q :: q in Picks(t) ==> q == m
  {
    t := Start;
    if n > 0 {
      t := Monopoly(full, pass, s, m, n - 1);
      t := Pick(t, m);
    }
  }

  lemma Product(n: nat, k: nat)
    requires k > 0
    ensures n <= n * k
  {
    var k': int := k - 1;
    assert n * k == n * k' + n && n * k' >= 0;
  }

  /** With positive passes, a competitor with fewer than `k` picks holds up all others. */
  lemma PositivePassServes<T>(full: map<T, nat>, pass: map<T, nat>, s: set<T>, k: nat)
    requires full.Keys == pass.Keys && s <= full.Keys && Close(s, full)
    requires forall q :: q in s ==> 0 < pass[q] <= BIG_STRIDE
    ensures Serves(full, pass, s, k, |s| * ((k + 2) * BIG_STRIDE) + 1)
  {
    var most := (k + 2) * BIG_STRIDE;
    forall t: Trace<T>, p | LeastPicks(full, pass, s, t) && Length(t) >= |s| * most + 1 && p in s
      ensures Picks(t)[p] >= k
    {
      if Picks(t)[p] < k {
        forall q | q in Picks(t) ensures q in s && Picks(t)[q] <= most {
          Member(t, s, q);
          ProportionalShare(full, pass, s, t, q, p);
          Product(Picks(t)[q], pass[q]);
          Fewer(Picks(t)[p], k, pass[p]);
        }
        BoundedCount(Picks(t), s, most);
      }
    }
  }

  lemma {:induction false} Member<T>(t: Trace<T>, s: set<T>, q: T)
    requires Among(t, s) && q in Picks(t)
    ensures q in s
  {
    if q != t.chosen {
      Member(t.before, s, q);
    }
  }

  lemma Fewer(n: nat, k: nat, pass: nat)
    requires n <= k && pass <= BIG_STRIDE
    ensures n * pass <= k * BIG_STRIDE
  {
    assert n * pass <= n * BIG_STRIDE;
  }

  /** With a competitor that never moves, some other is not picked again and again. */
  lemma ZeroPassFails<T>(full: map<T, nat>, pass: map<T, nat>, s: set<T>, z: T, other: T)
    requires full.Keys == pass.Keys && s <= full.Keys
    requires z in s && pass[z] == 0 && other in s && other != z
    ensures !StarvationFree(full, pass, s)
  {
    if StarvationFree(full, pass, s) {
      if q :| q in s && pass[q] > 0 {
        assert ServesEventually(full, pass, s, full[z] + 2);
        var n: nat :| Serves(full, pass, s, full[z] + 2, n);
        var t := LongRun(full, pass, s, n);
        ZeroPassLimits(full, pass, s, t, z, q);
        FewPicks(Picks(t)[q], pass[q], full[z]);
      } else {
        assert ServesEventually(full, pass, s, 1);
        var n: nat :| Serves(full, pass, s, 1, n);
        var m := LeastMember(full, s);
        var t := Monopoly(full, pass, s, m, n);
      }
    }
  }

  /** Exactly when stride scheduling starves nobody: several processes whose strides start within
      BIG_STRIDE of each other are all picked again and again if and only if no priority is above
      BIG_STRIDE. */
  lemma WhoStarves<T>(full: map<T, nat>, priority: map<T, nat>, pass: map<T, nat>, s: set<T>)
    requires full.Keys == pass.Keys && s <= full.Keys && Close(s, full) && |s| >= 2
    requires s <= priority.Keys && forall p :: p in s ==> pass[p] == Pass(priority[p])
    ensures StarvationFree(full, pass, s) <==> forall p :: p in s ==> priority[p] <= BIG_STRIDE
  {
    forall p | p in s ensures pass[p] <= BIG_STRIDE && (pass[p] > 0 <==> priority[p] <= BIG_STRIDE) {
      PassPositive(priority[p]);
    }
    if z :| z in s && priority[z] > BIG_STRIDE {
      assert |s - {z}| == |s| - 1;
      var other :| other in s - {z};
      ZeroPassFails(full, pass, s, z, other);
    } else {
      forall k: nat ensures ServesEventually(full, pass, s, k) {
        PositivePassServes(full, pass, s, k);
      }
    }
  }
}
