/** The clock replacement list (lab3/kern/mm/swap_clock.c): pages on a doubly linked list with a
    head, a visited bit each, and a hand that may rest on a page no longer on the list. */
module Clock {
  import opened Seqs

  /** The list head; page frames are numbered from 0. */
  const HEAD: int := -1

  /** The `i`-th node going round: the head at 0 and again behind the last page. */
  function Node(ring: seq<int>, i: int): int {
    if 1 <= i <= |ring| then ring[i - 1] else HEAD
  }

  /** The `i`-th node leads to the one behind it, and back. */
  ghost predicate Joined(ring: seq<int>, next: map<int, int>, prev: map<int, int>, i: int) {
    && Node(ring, i) in next && next[Node(ring, i)] == Node(ring, i + 1)
    && Node(ring, i + 1) in prev && prev[Node(ring, i + 1)] == Node(ring, i)
  }

  ghost predicate Linked(ring: seq<int>, next: map<int, int>, prev: map<int, int>) {
    && (forall i, j :: 0 <= i < j < |ring| ==> ring[i] != ring[j])
    && (forall i :: 0 <= i < |ring| ==> ring[i] != HEAD)
    && forall i :: 0 <= i <= |ring| ==> Joined(ring, next, prev, i)
  }

  /** Position `j` places after `p`, going round a ring of `n` pages at most once. */
  function Round(n: int, p: int, j: int): (r: int)
    requires 0 <= p < n && 0 <= j <= n
    ensures 0 <= r < n
  {
    if p + j < n then p + j else p + j - n
  }

  /** Going round, the first `n` positions are all different, and then comes the first again. */
  lemma RoundIsInjective(n: int, p: int, i: int, j: int)
    requires 0 <= p < n && 0 <= i <= n && 0 <= j <= n
    ensures Round(n, p, i) == Round(n, p, j) <==> i == j || (i == 0 && j == n) || (i == n && j == 0)
  {
  }

  /** Going round from `p`, every position comes up within `n` steps. */
  lemma RoundReaches(n: int, p: int, q: int) returns (j: int)
    requires 0 <= p < n && 0 <= q < n
    ensures 0 <= j < n && Round(n, p, j) == q
  {
    j := if p <= q then q - p else q - p + n;
  }

  lemma Apart(ring: seq<int>, next: map<int, int>, prev: map<int, int>)
    requires Linked(ring, next, prev)
    ensures forall i, j :: 0 <= i < j < |ring| ==> ring[i] != ring[j]
  {
  }

  /** list_del leaves the links of a list without the node; the node keeps its own. */
  lemma Unlinked(ring: seq<int>, next: map<int, int>, prev: map<int, int>, m: int)
    requires Linked(ring, next, prev) && 0 <= m < |ring|
    ensures var x := ring[m];
      && x in next && x in prev
      && Linked(Without(ring, m), next[prev[x] := next[x]], prev[next[x] := prev[x]])
      && next[prev[x] := next[x]][x] == Node(Without(ring, m), m + 1)
  {
    var x, r := ring[m], Without(ring, m);
    assert Joined(ring, next, prev, m) && Joined(ring, next, prev, m + 1);
    assert Node(ring, m + 1) == x && Node(ring, m) != x && Node(ring, m + 2) != x;
    var n', p' := next[prev[x] := next[x]], prev[next[x] := prev[x]];
    assert forall i :: 0 <= i <= |r| + 1 ==> Node(r, i) == Node(ring, if i <= m then i else i + 1);
    forall i | 0 <= i <= |r| ensures Joined(r, n', p', i) {
      var k := if i <= m then i else i + 1;
      assert Joined(ring, next, prev, k);
      assert Node(r, i) == Node(ring, k);
      assert Node(r, i + 1) == Node(ring, if i == m then m + 2 else k + 1);
    }
  }

  /** list_add_before the head: the page becomes the last of the list. */
  lemma Appended(ring: seq<int>, next: map<int, int>, prev: map<int, int>, x: int)
    requires Linked(ring, next, prev) && x !in ring && x != HEAD
    ensures HEAD in prev
    ensures Linked(ring + [x], next[prev[HEAD] := x][x := HEAD], prev[HEAD := x][x := prev[HEAD]])
  {
    var n := |ring|;
    assert Joined(ring, next, prev, n) && Node(ring, n + 1) == HEAD && Node(ring, 0) == HEAD;
    var r := ring + [x];
    var n', p' := next[prev[HEAD] := x][x := HEAD], prev[HEAD := x][x := prev[HEAD]];
    assert forall i :: 0 <= i <= n ==> Node(r, i) == Node(ring, i);
    assert Node(r, n + 1) == x && Node(r, n + 2) == HEAD;
    forall i | 0 <= i <= |r| ensures Joined(r, n', p', i) {
      if i <= n {
        assert Joined(ring, next, prev, i);
        assert Node(r, i) == Node(ring, i);
        assert i < n ==> Node(ring, i) != Node(ring, n) && Node(r, i + 1) == Node(ring, i + 1);
      }
    }
  }

  /** Where the link of a hand that led to node `after` leads once a page is last: to the head still if
      it was the page's own or led there from off the list, to the page if it was the last one's. */
  ghost function LeadsAfter(ring: seq<int>, next: map<int, int>, hand: int, after: int, x: int): int
    requires hand in next
  {
    if hand == x || (next[hand] == HEAD && hand != Node(ring, |ring|)) then |ring| + 2 else after
  }

  lemma HandAppended(ring: seq<int>, next: map<int, int>, prev: map<int, int>, hand: int, after: int, x: int)
    requires Linked(ring, next, prev) && x !in ring && x != HEAD && HEAD in prev
    requires 1 <= after <= |ring| + 1 && hand in next && next[hand] == Node(ring, after)
    ensures prev[HEAD] == Node(ring, |ring|)
    ensures var n' := next[prev[HEAD] := x][x := HEAD]; var a := LeadsAfter(ring, next, hand, after, x);
      1 <= a <= |ring| + 2 && hand in n' && n'[hand] == Node(ring + [x], a)
  {
    assert Joined(ring, next, prev, |ring|);
    assert after <= |ring| ==> Node(ring, after) == ring[after - 1] && ring[after - 1] != HEAD;
    assert after <= |ring| ==> Node(ring + [x], after) == Node(ring, after);
  }

  /** The page whose turn it is when the hand's link leads to node `after`; the head is skipped. */
  function First(ring: seq<int>, after: int): (p: int)
    requires ring != [] && 1 <= after <= |ring| + 1
    ensures 0 <= p < |ring|
  {
    if after == |ring| + 1 then 0 else after - 1
  }

  /** One step of the hand: to the page whose turn it is. */
  lemma Hop(ring: seq<int>, next: map<int, int>, prev: map<int, int>, after: int)
    requires Linked(ring, next, prev) && ring != [] && 1 <= after <= |ring| + 1
    ensures var h, m := Node(ring, after), First(ring, after);
      && (h == HEAD <==> after == |ring| + 1)
      && h in next && ring[m] == (if h == HEAD then next[h] else h)
      && ring[m] in next && next[ring[m]] == Node(ring, m + 2)
  {
    var m := First(ring, after);
    assert Joined(ring, next, prev, 0) && Joined(ring, next, prev, m + 1);
  }

  lemma ClearedFirst(ring: seq<int>, visited: map<int, bool>, p: int)
    requires 0 <= p < |ring|
    ensures Cleared(ring, visited, p, 0) == visited
  {
  }

  lemma ClearedNext(ring: seq<int>, visited: map<int, bool>, p: int, k: int)
    requires 0 <= p < |ring| && 0 <= k < |ring|
    ensures Cleared(ring, visited, p, k + 1) == Cleared(ring, visited, p, k)[ring[Round(|ring|, p, k)] := false]
  {
  }

  /** The sweep from position `p` passes `k` visited pages and takes the next: the first that was not
      visited or, when all were, the one it started with. */
  ghost predicate Swept(ring: seq<int>, visited: map<int, bool>, p: int, k: int)
    requires ring != [] && 0 <= p < |ring|
  {
    && 0 <= k <= |ring|
    && AllVisited(ring, visited, p, k)
    && (k < |ring| ==> !Visited(ring, visited, Round(|ring|, p, k)))
  }

  /** The first `k` pages from position `p` on were visited. */
  ghost predicate AllVisited(ring: seq<int>, visited: map<int, bool>, p: int, k: int)
    requires 0 <= p < |ring| && 0 <= k <= |ring|
  {
    forall j :: 0 <= j < k ==> Visited(ring, visited, Round(|ring|, p, j))
  }

  lemma NoneVisited(ring: seq<int>, visited: map<int, bool>, p: int)
    requires 0 <= p < |ring|
    ensures AllVisited(ring, visited, p, 0)
  {
  }

  lemma OneMoreVisited(ring: seq<int>, visited: map<int, bool>, p: int, k: int)
    requires 0 <= p < |ring| && 0 <= k < |ring|
    requires AllVisited(ring, visited, p, k) && Visited(ring, visited, Round(|ring|, p, k))
    ensures AllVisited(ring, visited, p, k + 1)
  {
  }

  ghost predicate Visited(ring: seq<int>, visited: map<int, bool>, i: int)
    requires 0 <= i < |ring|
  {
    ring[i] in visited && visited[ring[i]]
  }

  /** The bits once the first `k` pages from position `p` have been passed. */
  ghost function Cleared(ring: seq<int>, visited: map<int, bool>, p: int, k: int): map<int, bool>
    requires 0 <= p < |ring| && 0 <= k <= |ring|
    decreases k
  {
    if k <= 0 then visited else Cleared(ring, visited, p, k - 1)[ring[Round(|ring|, p, k - 1)] := false]
  }

  /** Exactly the pages passed have lost their bit. */
  lemma {:induction false} ClearedAt(ring: seq<int>, visited: map<int, bool>, p: int, k: int, j: int)
    requires 0 <= p < |ring| && 0 <= k <= |ring| && 0 <= j < |ring|
    requires forall i, j :: 0 <= i < j < |ring| ==> ring[i] != ring[j]
    requires forall x :: x in ring ==> x in visited
    ensures var x := ring[Round(|ring|, p, j)];
      x in Cleared(ring, visited, p, k) && Cleared(ring, visited, p, k)[x] == (visited[x] && j >= k)
    decreases k
  {
    if k > 0 {
      ClearedAt(ring, visited, p, k - 1, j);
      RoundIsInjective(|ring|, p, k - 1, j);
    }
  }

  lemma {:induction false} ClearedElsewhere(ring: seq<int>, visited: map<int, bool>, p: int, k: int, x: int)
    requires 0 <= p < |ring| && 0 <= k <= |ring| && x !in ring
    ensures x in Cleared(ring, visited, p, k) <==> x in visited
    ensures x in visited ==> Cleared(ring, visited, p, k)[x] == visited[x]
    decreases k
  {
    if k > 0 {
      ClearedElsewhere(ring, visited, p, k - 1, x);
    }
  }

  /** The bits of pages off the list. */
  ghost predicate SameElsewhere(ring: seq<int>, visited: map<int, bool>, visited': map<int, bool>) {
    forall x :: x !in ring ==> (x in visited' <==> x in visited) && (x in visited ==> visited'[x] == visited[x])
  }

  lemma SweepLeavesOthers(ring: seq<int>, visited: map<int, bool>, p: int, k: int)
    requires 0 <= p < |ring| && 0 <= k <= |ring|
    ensures SameElsewhere(ring, visited, Cleared(ring, visited, p, k))
  {
    forall x | x !in ring
      ensures x in Cleared(ring, visited, p, k) <==> x in visited
      ensures x in visited ==> Cleared(ring, visited, p, k)[x] == visited[x]
    {
      ClearedElsewhere(ring, visited, p, k, x);
    }
  }

  lemma SweepKeepsBits(ring: seq<int>, visited: map<int, bool>, p: int, k: int)
    requires 0 <= p < |ring| && 0 <= k <= |ring| && forall x :: x in ring ==> x in visited
    requires forall i, j :: 0 <= i < j < |ring| ==> ring[i] != ring[j]
    ensures forall x :: x in ring ==> x in Cleared(ring, visited, p, k)
  {
    forall x | x in ring ensures x in Cleared(ring, visited, p, k) {
      var i :| 0 <= i < |ring| && ring[i] == x;
      var j := RoundReaches(|ring|, p, i);
      ClearedAt(ring, visited, p, k, j);
    }
  }

  /** Second chance: if some page was not visited, the one taken was not; all pages passed on the way were visited and
      have lost their bit, and all others keep theirs; and if all were visited, the first one is taken. */
  lemma SecondChance(ring: seq<int>, visited: map<int, bool>, p: int, k: int, m: int)
    requires ring != [] && 0 <= p < |ring| && Swept(ring, visited, p, k) && m == Round(|ring|, p, k)
    requires (forall x :: x in ring ==> x in visited) && forall i, j :: 0 <= i < j < |ring| ==> ring[i] != ring[j]
    ensures (exists i :: 0 <= i < |ring| && !visited[ring[i]]) ==>
      && !visited[ring[m]]
      && forall i :: 0 <= i < |ring| ==>
           var passed := if p <= m then p <= i < m else i >= p || i < m;
           && ring[i] in Cleared(ring, visited, p, k) && (passed ==> visited[ring[i]])
           && Cleared(ring, visited, p, k)[ring[i]] == (visited[ring[i]] && !passed)
    ensures (forall i :: 0 <= i < |ring| ==> visited[ring[i]]) ==>
      m == p && forall i :: 0 <= i < |ring| ==>
        ring[i] in Cleared(ring, visited, p, k) && !Cleared(ring, visited, p, k)[ring[i]]
  {
    var n := |ring|;
    forall i | 0 <= i < n
      ensures var j := if p <= i then i - p else i - p + n;
        && ring[i] in Cleared(ring, visited, p, k)
        && Cleared(ring, visited, p, k)[ring[i]] == (visited[ring[i]] && j >= k)
        && (j < k ==> visited[ring[i]])
    {
      var j := if p <= i then i - p else i - p + n;
      assert Round(n, p, j) == i;
      ClearedAt(ring, visited, p, k, j);
      if j < k { assert Visited(ring, visited, Round(n, p, j)); }
    }
  }

  /** The page that the sweep takes when the hand's link leads to node `after`. */
  ghost predicate Victim(ring: seq<int>, visited: map<int, bool>, after: int, page: int) {
    && ring != [] && 1 <= after <= |ring| + 1
    && exists k :: Swept(ring, visited, First(ring, after), k) && page == ring[Round(|ring|, First(ring, after), k)]
  }

  class Clock {
    var next: map<int, int>
    var prev: map<int, int>
    var visited: map<int, bool>
    var hand: int
    ghost var ring: seq<int>
    ghost var members: set<int>
    ghost var after: int    // the node the hand's own link leads to

    /** `_clock_init_mm` */
    constructor ()
      ensures Valid() && ring == [] && members == {} && hand == HEAD
    {
      next, prev, visited, hand := map[HEAD := HEAD], map[HEAD := HEAD], map[], HEAD;
      ring, members, after := [], {}, 1;
    }

    ghost predicate Valid()
      reads this
    {
      && Linked(ring, next, prev)
      && (forall x :: x in members <==> x in ring) && (forall x :: x in ring ==> x in visited)
      && 1 <= after <= |ring| + 1 && hand in next && next[hand] == Node(ring, after)
    }

    /** `_clock_map_swappable` */
    method MapSwappable(page: int)
      requires Valid() && page !in members && page >= 0
      modifies this
      ensures Valid() && ring == old(ring) + [page] && members == old(members) + {page}
      ensures visited == old(visited)[page := true] && hand == old(hand)
      ensures after == LeadsAfter(old(ring), old(next), old(hand), old(after), page)
    {
      hide Joined, Node;
      Appended(ring, next, prev, page);
      HandAppended(ring, next, prev, hand, after, page);
      var last := prev[HEAD];
      after := LeadsAfter(ring, next, hand, after, page);
      next, prev := next[last := page][page := HEAD], prev[HEAD := page][page := last];
      visited := visited[page := true];
      ring, members := ring + [page], members + {page};
    }

    /** The loop of `_clock_swap_out_victim`, up to the page that is taken. */
    method Sweep() returns (page: int, ghost k: int)
      requires Valid() && ring != []
      modifies this`hand, this`visited, this`after
      ensures Swept(ring, old(visited), First(ring, old(after)), k)
      ensures page == ring[Round(|ring|, First(ring, old(after)), k)] && hand == page
      ensures visited == Cleared(ring, old(visited), First(ring, old(after)), k)
    {
      hide AllVisited, Linked, Cleared, Node;
      Apart(ring, next, prev);
      NoneVisited(ring, visited, First(ring, after));
      ClearedFirst(ring, visited, First(ring, after));
      ghost var p, bits := First(ring, after), visited;
      k := 0;
      while true
        invariant 0 <= k <= |ring| && 1 <= after <= |ring| + 1 && hand in next && next[hand] == Node(ring, after)
        invariant First(ring, after) == Round(|ring|, p, k)
        invariant visited == Cleared(ring, bits, p, k)
        invariant AllVisited(ring, bits, p, k)
        decreases |ring| - k
      {
        ghost var m := Round(|ring|, p, k);
        Hop(ring, next, prev, after);
        hand := next[hand];
        if hand == HEAD {
          hand := next[hand];
        }
        page := hand;
        ClearedAt(ring, bits, p, k, if k == |ring| then 0 else k);
        if !visited[page] {
          break;
        }
        OneMoreVisited(ring, bits, p, k);
        ClearedNext(ring, bits, p, k);
        visited := visited[page := false];
        after := m + 2;
        k := k + 1;
      }
    }

    /** Takes the page under the hand off the list; the hand stays on it. */
    method Detach(ghost m: int)
      requires Linked(ring, next, prev) && 0 <= m < |ring| && hand == ring[m]
      requires (forall x :: x in members <==> x in ring) && forall x :: x in ring ==> x in visited
      modifies this`next, this`prev, this`ring, this`members, this`after
      ensures Valid() && ring == Without(old(ring), m) && members == old(members) - {hand} && after == m + 1
    {
      hide Joined;
      Unlinked(ring, next, prev, m);
      next, prev := next[prev[hand] := next[hand]], prev[next[hand] := prev[hand]];
      ring, members, after := Without(ring, m), members - {hand}, m + 1;
    }

    /** `_clock_swap_out_victim` */
    method SwapOutVictim() returns (page: int, ghost k: int)
      requires Valid() && ring != []
      modifies this
      ensures Valid() && Swept(old(ring), old(visited), First(old(ring), old(after)), k)
      ensures page == old(ring)[Round(|old(ring)|, First(old(ring), old(after)), k)]
      ensures ring == Without(old(ring), Round(|old(ring)|, First(old(ring), old(after)), k))
      ensures members == old(members) - {page} && page in old(members)
      ensures Victim(old(ring), old(visited), old(after), page)
      ensures visited == Cleared(old(ring), old(visited), First(old(ring), old(after)), k)
      ensures SameElsewhere(old(ring), old(visited), visited)
      ensures hand == page && after == Round(|old(ring)|, First(old(ring), old(after)), k) + 1
    {
      hide Linked, SameElsewhere, AllVisited, Visited, Cleared;
      ghost var p, bits := First(ring, after), visited;
      Apart(ring, next, prev);
      page, k := Sweep();
      SweepLeavesOthers(ring, bits, p, k);
      SweepKeepsBits(ring, bits, p, k);
      Detach(Round(|ring|, p, k));
    }
  }
}
