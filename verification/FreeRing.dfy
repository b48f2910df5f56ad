/** The circular, address-ordered, fully coalesced free list of the SLOB allocator
    (Lab5/kern/mm/kmalloc.c), as a set of block addresses with the `units` and `next` words of their
    headers. Addresses count allocation units. */
module FreeRing {

  /** `n` follows `b` on the ring: the next higher block or, past the highest one, the lowest. */
  ghost predicate Follows(f: set<int>, b: int, n: int) {
    && n in f
    && (n > b ==> forall x :: x in f ==> x <= b || n <= x)
    && (n <= b ==> forall x :: x in f ==> n <= x <= b)
  }

  /** Every block leads to the one that follows it. */
  ghost predicate Circular(f: set<int>, next: map<int, int>) {
    f <= next.Keys && forall b {:trigger next[b]} :: b in f ==> Follows(f, b, next[b])
  }

  /** Blocks do not overlap and do not even touch: the list is fully coalesced. */
  ghost predicate Apart(f: set<int>, units: map<int, int>) {
    && f <= units.Keys
    && (forall b :: b in f ==> units[b] >= 1)
    && forall a, b :: a in f && b in f && a < b ==> a + units[a] < b
  }

  /** The blocks passed when walking from `a` to `z`, `a` itself left out. */
  ghost function Arc(f: set<int>, a: int, z: int): set<int> {
    set x | x in f && if a < z then a < x <= z else a < x || x <= z
  }

  /** The part of a walk that is left shrinks with every step, until the goal is reached. */
  lemma ArcShrinks(f: set<int>, a: int, n: int, z: int)
    requires Follows(f, a, n) && a in f && z in f && n != z
    ensures Arc(f, n, z) == Arc(f, a, z) - {n} && n in Arc(f, a, z)
  {
  }

  lemma ArcEnd(f: set<int>, a: int, z: int)
    requires z in f && a != z
    ensures z in Arc(f, a, z)
  {
  }

  /** What has been passed on the walk from `a` to `p`, before going on to the block after `p`. */
  ghost function Passed(f: set<int>, a: int, p: int): set<int> {
    if p == a then {} else Arc(f, a, p)
  }

  lemma PassedGrows(f: set<int>, a: int, p: int, n: int)
    requires Follows(f, p, n) && a in f && p in f
    ensures Arc(f, a, n) == Passed(f, a, p) + {n}
  {
  }

  /** A full walk passes everything; one step before its end only the goal is left. */
  lemma FullWalk(f: set<int>, a: int, p: int)
    requires Follows(f, p, a) && a in f && p in f
    ensures f == Passed(f, a, p) + {a} && Arc(f, p, a) == {a}
  {
    forall x ensures x in f <==> x in Passed(f, a, p) + {a} {
    }
  }

  // ---------- where a block belongs ----------

  /** `g` is the block after which `b` belongs. */
  ghost predicate Gap(f: set<int>, g: int, b: int) {
    && g in f
    && (g < b ==> forall x :: x in f ==> x <= g || b < x)
    && (g >= b ==> forall x :: x in f ==> b < x <= g)
  }

  lemma {:induction false} GapExists(f: set<int>, e: int, b: int) returns (g: int)
    requires e in f && b !in f
    ensures Gap(f, g, b)
  {
    var rest := f - {e};
    assert forall y :: y in f <==> y in rest || y == e;
    g := e;
    if exists x :: x in rest {
      var x :| x in rest;
      g := GapExists(rest, x, b);
      if (g < b && g < e < b) || (g >= b && (e < b || g < e)) {
        g := e;
      }
    }
  }

  /** The loop test of `slob_free` singles out exactly the gap. */
  lemma GapTest(f: set<int>, g: int, b: int, cur: int, n: int)
    requires Gap(f, g, b) && b !in f && cur in f && Follows(f, cur, n)
    ensures cur == g <==> (b > cur && b < n) || (cur >= n && (b > cur || b < n))
  {
  }

  // ---------- the units a set of blocks occupies ----------

  function Extent(b: int, n: int): (s: set<int>)
    ensures forall x :: x in s <==> b <= x < b + n
    decreases n
  {
    if n <= 0 then {} else Extent(b, n - 1) + {b + n - 1}
  }

  ghost function UnitsOf(f: set<int>, units: map<int, int>): set<int>
    requires f <= units.Keys
  {
    set b, x | b in f && x in Extent(b, units[b]) :: x
  }

  lemma UnitsAdd(f: set<int>, units: map<int, int>, b: int, n: int)
    requires f <= units.Keys && b !in f
    ensures UnitsOf(f + {b}, units[b := n]) == UnitsOf(f, units) + Extent(b, n)
  {
    forall x | x in UnitsOf(f, units) ensures x in UnitsOf(f + {b}, units[b := n]) {
      var a :| a in f && x in Extent(a, units[a]);
      assert a in f + {b} && x in Extent(a, units[b := n][a]);
    }
    forall x | x in Extent(b, n) ensures x in UnitsOf(f + {b}, units[b := n]) {
      assert b in f + {b} && x in Extent(b, units[b := n][b]);
    }
    forall x | x in UnitsOf(f + {b}, units[b := n]) ensures x in UnitsOf(f, units) + Extent(b, n) {
      var a :| a in f + {b} && x in Extent(a, units[b := n][a]);
      if a != b { assert a in f && x in Extent(a, units[a]); }
    }
  }

  lemma UnitsSame(f: set<int>, units: map<int, int>, units': map<int, int>)
    requires f <= units.Keys && f <= units'.Keys && forall b :: b in f ==> units[b] == units'[b]
    ensures UnitsOf(f, units) == UnitsOf(f, units')
  {
    forall x ensures x in UnitsOf(f, units) <==> x in UnitsOf(f, units') {
      if x in UnitsOf(f, units) {
        var b :| b in f && x in Extent(b, units[b]);
        assert x in Extent(b, units'[b]);
      }
      if x in UnitsOf(f, units') {
        var b :| b in f && x in Extent(b, units'[b]);
        assert x in Extent(b, units[b]);
      }
    }
  }

  /** Blocks of a ring do not overlap, so leaving one out leaves out exactly its units. */
  lemma UnitsRemove(f: set<int>, units: map<int, int>, b: int)
    requires b in f && f <= units.Keys && forall x :: x in f ==> units[x] >= 1
    requires forall x, y :: x in f && y in f && x < y ==> x + units[x] <= y
    ensures UnitsOf(f - {b}, units) == UnitsOf(f, units) - Extent(b, units[b])
    ensures Extent(b, units[b]) <= UnitsOf(f, units)
  {
    forall x | x in UnitsOf(f - {b}, units) ensures x in UnitsOf(f, units) - Extent(b, units[b]) {
      var a :| a in f - {b} && x in Extent(a, units[a]);
      assert a in f && x in Extent(a, units[a]);
    }
    forall x | x in UnitsOf(f, units) - Extent(b, units[b]) ensures x in UnitsOf(f - {b}, units) {
      var a :| a in f && x in Extent(a, units[a]);
      assert a in f - {b} && x in Extent(a, units[a]);
    }
    forall x | x in Extent(b, units[b]) ensures x in UnitsOf(f, units) {
      assert b in f && x in Extent(b, units[b]);
    }
  }

  /** Free units that lie next to each other belong to one block. */
  lemma {:induction false} OneBlock(f: set<int>, units: map<int, int>, p: int, n: int) returns (b: int)
    requires Apart(f, units) && n >= 1 && Extent(p, n) <= UnitsOf(f, units)
    ensures b in f && b <= p && p + n <= b + units[b]
  {
    assert p + n - 1 in Extent(p, n);
    b :| b in f && p + n - 1 in Extent(b, units[b]);
    if n > 1 {
      assert Extent(p, n - 1) <= Extent(p, n);
      var a := OneBlock(f, units, p, n - 1);
    }
  }

  // ---------- the link updates ----------

  lemma FollowsInsert(f: set<int>, g: int, b: int, x: int, n: int)
    requires Gap(f, g, b) && b !in f && x in f && Follows(f, x, n)
    ensures x != g ==> Follows(f + {b}, x, n)
    ensures x == g ==> Follows(f + {b}, g, b) && Follows(f + {b}, b, n)
  {
  }

  /** Linking a block in at its gap. */
  lemma LinkIn(f: set<int>, next: map<int, int>, g: int, b: int)
    requires Circular(f, next) && Gap(f, g, b) && b !in f
    ensures Circular(f + {b}, next[b := next[g]][g := b])
  {
    var next' := next[b := next[g]][g := b];
    FollowsInsert(f, g, b, g, next[g]);
    forall x | x in f + {b} ensures Follows(f + {b}, x, next'[x]) {
      if x in f { FollowsInsert(f, g, b, x, next[x]); }
    }
  }

  lemma FollowsRemove(f: set<int>, p: int, c: int, n: int, x: int, m: int)
    requires p in f && c in f && c != p && Follows(f, p, c) && Follows(f, c, n) && x in f && x != c && Follows(f, x, m)
    ensures x != p ==> Follows(f - {c}, x, m)
    ensures x == p ==> Follows(f - {c}, p, n)
  {
  }

  lemma CircularKeys(f: set<int>, next: map<int, int>)
    requires Circular(f, next)
    ensures f <= next.Keys && forall x {:trigger next[x]} :: x in f ==> next[x] in f
  {
  }

  lemma GapWithout(f: set<int>, p: int, c: int, b: int)
    requires Follows(f, p, c) && p in f && c in f && c != p && (Gap(f, c, b) || Gap(f, p, b))
    ensures Gap(f - {c}, p, b)
  {
  }

  lemma NextFollows(f: set<int>, next: map<int, int>, x: int)
    requires Circular(f, next) && x in f
    ensures x in next && next[x] in f && Follows(f, x, next[x])
  {
  }

  lemma AllFollow(f: set<int>, next: map<int, int>)
    requires f <= next.Keys && forall b {:trigger next[b]} :: b in f ==> Follows(f, b, next[b])
    ensures Circular(f, next)
  {
  }

  /** Unlinking the block after `p`. */
  lemma LinkOut(f: set<int>, next: map<int, int>, p: int, c: int)
    requires Circular(f, next) && p in f && c == next[p] && c != p
    ensures Circular(f - {c}, next[p := next[c]])
    ensures forall b :: Gap(f, c, b) || Gap(f, p, b) ==> Gap(f - {c}, p, b)
  {
    hide Circular, Follows, Gap;
    CircularKeys(f, next);
    NextFollows(f, next, p);
    NextFollows(f, next, c);
    var next' := next[p := next[c]];
    forall x | x in f - {c} ensures Follows(f - {c}, x, next'[x]) {
      NextFollows(f, next, x);
      FollowsRemove(f, p, c, next[c], x, next[x]);
    }
    AllFollow(f - {c}, next');
    forall b | Gap(f, c, b) || Gap(f, p, b) ensures Gap(f - {c}, p, b) {
      GapWithout(f, p, c, b);
    }
  }

  // ---------- giving a block back ----------

  /** The block [b, b + n) overlaps no block of the list. */
  ghost predicate Fits(f: set<int>, units: map<int, int>, b: int, n: int)
    requires f <= units.Keys
  {
    n >= 1 && forall x :: x in f ==> (x < b && x + units[x] <= b) || b + n <= x
  }

  lemma FitsOutside(f: set<int>, units: map<int, int>, b: int, n: int)
    requires Apart(f, units) && n >= 1 && UnitsOf(f, units) !! Extent(b, n)
    ensures Fits(f, units, b, n) && b !in f
  {
    forall x | x in f ensures (x < b && x + units[x] <= b) || b + n <= x {
      UnitsRemove(f, units, x);
      assert b in Extent(b, n) && x in Extent(x, units[x]);
      assert b !in Extent(x, units[x]) && x !in Extent(b, n);
    }
  }

  lemma ExtentJoin(b: int, n: int, m: int)
    requires n >= 0 && m >= 0
    ensures Extent(b, n + m) == Extent(b, n) + Extent(b + n, m) && Extent(b, n) !! Extent(b + n, m)
  {
  }

  /** Absorbing the block `c` that starts where the new one ends. */
  lemma AbsorbNext(f: set<int>, units: map<int, int>, b: int, n: int, c: int)
    requires Apart(f, units) && Fits(f, units, b, n) && c in f && c == b + n
    ensures Apart(f - {c}, units) && Fits(f - {c}, units, b, n + units[c])
    ensures forall x :: x in f - {c} ==> x != b + n + units[c]
  {
  }

  lemma AbsorbNextUnits(f: set<int>, units: map<int, int>, b: int, n: int, c: int)
    requires Apart(f, units) && n >= 1 && c in f && c == b + n
    ensures UnitsOf(f - {c}, units) + Extent(b, n + units[c]) == UnitsOf(f, units) + Extent(b, n)
  {
    UnitsRemove(f, units, c);
    ExtentJoin(b, n, units[c]);
  }

  /** The new block becomes part of the block `g` that ends where it starts. */
  lemma JoinPrevious(f: set<int>, units: map<int, int>, g: int, b: int, m: int)
    requires Apart(f, units) && Fits(f, units, b, m) && b !in f && g in f && g + units[g] == b
    requires forall x :: x in f ==> x != b + m
    ensures Apart(f, units[b := m][g := units[g] + m])
  {
    var units' := units[b := m][g := units[g] + m];
    forall x, y | x in f && y in f && x < y ensures x + units'[x] < y {
      if x == g { assert y > g + units[g]; }
    }
  }

  lemma JoinPreviousUnits(f: set<int>, units: map<int, int>, g: int, b: int, m: int)
    requires Apart(f, units) && m >= 1 && b !in f && g in f && g + units[g] == b
    ensures UnitsOf(f, units[b := m][g := units[g] + m]) == UnitsOf(f, units) + Extent(b, m)
  {
    hide UnitsOf, Extent;
    var a, e, rest := UnitsOf(f, units), Extent(g, units[g]), f - {g};
    assert rest + {g} == f;
    calc {
      UnitsOf(rest + {g}, units[b := m][g := units[g] + m]);
      { UnitsAdd(rest, units[b := m], g, units[g] + m); }
      UnitsOf(rest, units[b := m]) + Extent(g, units[g] + m);
      { UnitsSame(rest, units, units[b := m]); UnitsRemove(f, units, g); }
      (a - e) + Extent(g, units[g] + m);
      { ExtentJoin(g, units[g], m); }
      (a - e) + (e + Extent(b, m));
      { UnitsRemove(f, units, g); assert e <= a; }
      a + Extent(b, m);
    }
  }

  /** The new block stands alone. */
  lemma StandAlone(f: set<int>, units: map<int, int>, b: int, m: int)
    requires Apart(f, units) && Fits(f, units, b, m) && b !in f && forall x :: x in f ==> x != b + m
    requires forall g :: g in f ==> g + units[g] != b
    ensures Apart(f + {b}, units[b := m])
  {
  }

  /** Only the neighbours at the gap can touch the new block. */
  lemma Touching(f: set<int>, units: map<int, int>, cur: int, c: int, b: int, n: int)
    requires Apart(f, units) && Fits(f, units, b, n) && b !in f && Gap(f, cur, b) && Follows(f, cur, c)
    ensures forall x :: x in f && x == b + n ==> x == c
    ensures forall x :: x in f && x + units[x] == b ==> x == cur
    ensures b + n == c ==> c != cur || f == {c}
  {
    if b + n == c && c == cur {
      assert forall x :: x in f ==> x == c;
    }
  }

  // ---------- the merging half of `slob_free` ----------

  /** Only the links of the blocks on the ring matter. */
  lemma CircularElsewhere(f: set<int>, n: map<int, int>, m: map<int, int>)
    requires Circular(f, m) && f <= n.Keys && forall x :: x in f ==> n[x] == m[x]
    ensures Circular(f, n)
  {
    forall x | x in f ensures Follows(f, x, n[x]) {
      assert Follows(f, x, m[x]);
    }
  }

  /** The links after `b` took over the successor of `cur`, or of the block `c` that it absorbed. */
  lemma NextOn(f: set<int>, next: map<int, int>, cur: int, b: int)
    requires Circular(f, next) && Gap(f, cur, b)
    ensures cur in f && cur in next && next[cur] in f && next[cur] in next && Follows(f, cur, next[cur])
  {
  }

  lemma LinksMid(f: set<int>, next: map<int, int>, cur: int, c: int, b: int, right: bool)
    requires Circular(f, next) && Gap(f, cur, b) && b !in f && c == next[cur] && (right ==> c != cur)
    ensures var rest := if right then f - {c} else f;
            var d := if right then next[next[cur]] else next[cur];
            Circular(rest, next[b := d][cur := d]) && Gap(rest, cur, b)
  {
    hide Gap, Follows;
    NextOn(f, next, cur, b);
    if right {
      LinkOut(f, next, cur, c);
      CircularElsewhere(f - {c}, next[b := next[c]][cur := next[c]], next[cur := next[c]]);
    } else {
      CircularElsewhere(f, next[b := c][cur := c], next);
    }
  }

  /** The links once `cur` leads to `b`, or past it when it has swallowed it. */
  lemma LinksEnd(f: set<int>, next: map<int, int>, cur: int, b: int, left: bool)
    requires b in next && Circular(f, next[cur := next[b]]) && Gap(f, cur, b) && b !in f
    ensures !left ==> Circular(f + {b}, next[cur := b])
    ensures left ==> Circular(f, next[cur := next[b]])
  {
    var m := next[cur := next[b]];
    LinkIn(f, m, cur, b);
    if !left {
      CircularElsewhere(f + {b}, next[cur := b], m[b := m[cur]][cur := b]);
    }
  }

  // Blocks, headers and links at the end: `right` says that `b` absorbed `c`, `left` that `cur`
  // absorbed `b`.

  ghost function EndBlocks(f: set<int>, c: int, b: int, right: bool, left: bool): set<int> {
    var rest := if right then f - {c} else f;
    if left then rest else rest + {b}
  }

  ghost function EndUnits(units: map<int, int>, cur: int, c: int, b: int, right: bool, left: bool): map<int, int>
    requires cur in units && c in units && b in units
  {
    var m := if right then units[b] + units[c] else units[b];
    if left then units[b := m][cur := units[cur] + m] else units[b := m]
  }

  ghost function EndNext(next: map<int, int>, cur: int, c: int, b: int, right: bool, left: bool): map<int, int>
    requires c in next
  {
    var d := if right then next[c] else c;
    next[b := d][cur := if left then d else b]
  }

  lemma EndCircular(f: set<int>, next: map<int, int>, cur: int, c: int, b: int, right: bool, left: bool)
    requires Circular(f, next) && Gap(f, cur, b) && b !in f && c == next[cur] && c in f && (right ==> c != cur)
    ensures Circular(EndBlocks(f, c, b, right, left), EndNext(next, cur, c, b, right, left))
  {
    var rest := if right then f - {c} else f;
    var d := if right then next[c] else c;
    LinksMid(f, next, cur, c, b, right);
    LinksEnd(rest, next[b := d], cur, b, left);
  }

  lemma EndApart(f: set<int>, units: map<int, int>, cur: int, c: int, b: int)
    requires Apart(f, units) && cur in f && c in f && b in units && b !in f && Fits(f, units, b, units[b])
    requires forall x :: x in f && x == b + units[b] ==> x == c
    requires forall x :: x in f && x + units[x] == b ==> x == cur
    requires b + units[b] == c ==> c != cur
    ensures var right, left := b + units[b] == c, cur + units[cur] == b;
            Apart(EndBlocks(f, c, b, right, left), EndUnits(units, cur, c, b, right, left))
  {
    var rest, m := f, units[b];
    if b + units[b] == c {
      AbsorbNext(f, units, b, units[b], c);
      rest, m := f - {c}, units[b] + units[c];
    }
    if cur + units[cur] == b {
      JoinPrevious(rest, units, cur, b, m);
    } else {
      StandAlone(rest, units, b, m);
    }
  }

  lemma EndUnitsOf(f: set<int>, units: map<int, int>, cur: int, c: int, b: int, right: bool, left: bool)
    requires Apart(f, units) && cur in f && c in f && b in units && b !in f && units[b] >= 1
    requires right == (b + units[b] == c) && left == (cur + units[cur] == b) && (right ==> c != cur)
    ensures EndBlocks(f, c, b, right, left) <= EndUnits(units, cur, c, b, right, left).Keys
    ensures UnitsOf(EndBlocks(f, c, b, right, left), EndUnits(units, cur, c, b, right, left))
         == UnitsOf(f, units) + Extent(b, units[b])
  {
    var f', u' := EndBlocks(f, c, b, right, left), EndUnits(units, cur, c, b, right, left);
    var m := if right then units[b] + units[c] else units[b];
    var rest := if right then f - {c} else f;
    assert UnitsOf(rest, units) + Extent(b, m) == UnitsOf(f, units) + Extent(b, units[b]) by {
      if right { AbsorbNextUnits(f, units, b, units[b], c); }
    }
    assert UnitsOf(f', u') == UnitsOf(rest, units) + Extent(b, m) by {
      if left {
        assert f' == rest && u' == units[b := m][cur := units[cur] + m];
        JoinPreviousUnits(rest, units, cur, b, m);
      } else {
        assert f' == rest + {b} && u' == units[b := m];
        UnitsAdd(rest, units, b, m);
      }
    }
  }

  /** A one-unit block that the new one does not touch stays as it is. */
  lemma EndKeeps(f: set<int>, units: map<int, int>, cur: int, c: int, b: int, a: int)
    requires cur in units && c in units && b in units && b !in f && cur in f
    requires a in f && a in units && units[a] == 1 && b + units[b] != a && b != a + 1
    requires b + units[b] == c ==> c != cur
    ensures var right, left := b + units[b] == c, cur + units[cur] == b;
            var f', u' := EndBlocks(f, c, b, right, left), EndUnits(units, cur, c, b, right, left);
      a in f' && u'[a] == 1 && cur in f' && u'.Keys == units.Keys
      && forall x :: x in units && x !in f && x != b ==> u'[x] == units[x]
  {
  }

  lemma EndNextKeeps(next: map<int, int>, cur: int, c: int, b: int, right: bool, left: bool)
    requires c in next
    ensures forall x :: x in next && x != cur && x != b ==> EndNext(next, cur, c, b, right, left)[x] == next[x]
    ensures next.Keys <= EndNext(next, cur, c, b, right, left).Keys
  {
  }

  // ---------- handing a block out ----------

  /** The block before the one that was handed out is where that belongs. */
  lemma GapLeft(f: set<int>, units: map<int, int>, p: int, c: int, n: int)
    requires Apart(f, units) && Follows(f, p, c) && p in f && c in f && c != p && 1 <= n <= units[c]
    ensures Gap(f - {c}, p, c) && (n < units[c] ==> Gap(f - {c} + {c + n}, p, c))
  {
    assert p > c ==> c + units[c] < p;
  }

  lemma CutGap(f: set<int>, units: map<int, int>, cur: int, n: int)
    requires Apart(f, units) && cur in f && 1 <= n < units[cur]
    ensures cur + n !in f && Gap(f, cur, cur + n)
  {
  }

  /** The rest of a block that is cut takes its place between the same neighbours. */
  lemma CutCircular(f: set<int>, next: map<int, int>, prev: int, cur: int, b: int)
    requires Circular(f, next) && prev in f && prev in next && cur == next[prev] && cur != prev
    requires b !in f && Gap(f, cur, b) && cur in f && cur in next
    ensures Circular(f - {cur} + {b}, next[prev := b][b := next[cur]])
  {
    hide Circular, Gap;
    CircularKeys(f, next);
    LinkOut(f, next, prev, cur);
    var m := next[prev := next[cur]];
    LinkIn(f - {cur}, m, prev, b);
    CircularElsewhere(f - {cur} + {b}, next[prev := b][b := next[cur]], m[b := m[prev]][prev := b]);
  }

  lemma CutApart(f: set<int>, units: map<int, int>, cur: int, n: int)
    requires Apart(f, units) && cur in f && 1 <= n < units[cur] && cur + n !in f
    ensures Apart(f - {cur} + {cur + n}, units[cur + n := units[cur] - n][cur := n])
  {
    var f', u' := f - {cur} + {cur + n}, units[cur + n := units[cur] - n][cur := n];
    forall x, y | x in f' && y in f' && x < y ensures x + u'[x] < y {
      if y == cur + n {
        assert x < cur;
      } else if x == cur + n {
        assert cur + units[cur] < y;
      }
    }
  }

  lemma CutUnits(f: set<int>, units: map<int, int>, cur: int, n: int)
    requires Apart(f, units) && cur in f && 1 <= n < units[cur] && cur + n !in f
    ensures UnitsOf(f - {cur} + {cur + n}, units[cur + n := units[cur] - n][cur := n])
         == UnitsOf(f, units) - Extent(cur, n)
  {
    hide UnitsOf, Extent;
    var a, e, rest, k, b := UnitsOf(f, units), Extent(cur, units[cur]), f - {cur}, units[cur] - n, cur + n;
    var u1, u2 := units[b := k], units[b := k][cur := n];
    assert UnitsOf(rest, units) == a - e && e <= a by { UnitsRemove(f, units, cur); }
    ExtentJoin(cur, n, k);
    assert UnitsOf(rest + {b}, u1) == UnitsOf(rest, units) + Extent(b, k) by { UnitsAdd(rest, units, b, k); }
    assert UnitsOf(rest + {b}, u2) == UnitsOf(rest + {b}, u1) by { UnitsSame(rest + {b}, u1, u2); }
    CutSets(a, e, Extent(cur, n), Extent(b, k));
  }

  lemma CutSets(a: set<int>, e: set<int>, x: set<int>, y: set<int>)
    requires e <= a && e == x + y && x !! y
    ensures (a - e) + y == a - x
  {
  }

  lemma ApartSubset(f: set<int>, units: map<int, int>, c: int)
    requires Apart(f, units)
    ensures Apart(f - {c}, units)
  {
  }
}
