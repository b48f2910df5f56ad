/** The pointer skew heap of lab8/libs/skew_heap.h. The functional heap `Tree` is the
    specification: every pointer operation is proved to compute it, links included. */
module SkewHeap {
  import opened ProcStruct
  import opened Words

  datatype Tree = Nil | Node(left: Tree, proc: Proc, right: Tree)

  ghost function Nodes(t: Tree): (s: set<Proc>)
    ensures t.Node? ==> t.proc in s
  {
    match t
    case Nil => {}
    case Node(l, p, r) => Nodes(l) + {p} + Nodes(r)
  }

  ghost function Size(t: Tree): nat {
    if t.Nil? then 0 else Size(t.left) + 1 + Size(t.right)
  }

  /** No node occurs twice. */
  ghost predicate Distinct(t: Tree) {
    match t
    case Nil => true
    case Node(l, p, r) =>
      p !in Nodes(l) && p !in Nodes(r) && Nodes(l) !! Nodes(r) && Distinct(l) && Distinct(r)
  }

  lemma {:induction false} SizeIsCardinality(t: Tree)
    requires Distinct(t)
    ensures Size(t) == |Nodes(t)|
  {
    if t.Node? {
      SizeIsCardinality(t.left);
      SizeIsCardinality(t.right);
      assert |Nodes(t.left) + {t.proc}| == |Nodes(t.left)| + 1;
    }
  }

  ghost function Root(t: Tree): Proc? {
    if t.Nil? then null else t.proc
  }

  /** The nodes other than the root. */
  ghost function Inner(t: Tree): (s: set<Proc>)
    ensures s <= Nodes(t)
  {
    if t.Nil? then {} else Nodes(t.left) + Nodes(t.right)
  }

  /** The child links of the nodes are those of the tree, and each child points back to its parent.
      The root's own parent link is not constrained. */
  ghost predicate Linked(t: Tree)
    reads Nodes(t)`left, Nodes(t)`right, Inner(t)`parent
  {
    match t
    case Nil => true
    case Node(l, p, r) =>
      && p.left == Root(l) && p.right == Root(r)
      && (l.Node? ==> l.proc.parent == p)
      && (r.Node? ==> r.proc.parent == p)
      && Linked(l) && Linked(r)
  }

  // ---------- the functional heap ----------

  ghost function Merge(a: Tree, b: Tree, key: map<Proc, u32>): (t: Tree)
    requires Nodes(a) <= key.Keys && Nodes(b) <= key.Keys
    ensures Nodes(t) == Nodes(a) + Nodes(b) && Size(t) == Size(a) + Size(b)
    ensures Distinct(a) && Distinct(b) && Nodes(a) !! Nodes(b) ==> Distinct(t)
    ensures t.Node? ==> Root(t) == Root(a) || Root(t) == Root(b)
  {
    if a.Nil? then b
    else if b.Nil? then a
    else if Compare(key[a.proc], key[b.proc]) == -1 then Node(Merge(a.right, b, key), a.proc, a.left)
    else Node(Merge(a, b.right, key), b.proc, b.left)
  }

  /** The comparisons that a merge takes. */
  ghost function Steps(a: Tree, b: Tree, key: map<Proc, u32>): nat
    requires Nodes(a) <= key.Keys && Nodes(b) <= key.Keys
  {
    if a.Nil? || b.Nil? then 0
    else if Compare(key[a.proc], key[b.proc]) == -1 then Steps(a.right, b, key) + 1
    else Steps(a, b.right, key) + 1
  }

  ghost function Remove(t: Tree, b: Proc, key: map<Proc, u32>): (t': Tree)
    requires b in Nodes(t) && Distinct(t) && Nodes(t) <= key.Keys
    ensures Nodes(t') == Nodes(t) - {b} && Size(t') == Size(t) - 1
    ensures Distinct(t')
    ensures t.proc != b ==> t'.Node? && t'.proc == t.proc
  {
    if t.proc == b then Merge(t.left, t.right, key)
    else if b in Nodes(t.left) then Node(Remove(t.left, b, key), t.proc, t.right)
    else Node(t.left, t.proc, Remove(t.right, b, key))
  }

  /** The subtree below a node of the heap. */
  ghost function Below(t: Tree, b: Proc): (s: Tree)
    requires b in Nodes(t)
    ensures s.Node? && s.proc == b && Nodes(s) <= Nodes(t)
    ensures Distinct(t) ==> Distinct(s)
  {
    if t.proc == b then t
    else if b in Nodes(t.left) then Below(t.left, b)
    else Below(t.right, b)
  }

  // ---------- heap order over the unbounded strides ----------

  ghost predicate AllAtLeast(t: Tree, v: nat, full: map<Proc, nat>) {
    forall p :: p in Nodes(t) ==> p in full && v <= full[p]
  }

  ghost predicate Ordered(t: Tree, full: map<Proc, nat>) {
    match t
    case Nil => true
    case Node(l, p, r) =>
      p in full && AllAtLeast(l, full[p], full) && AllAtLeast(r, full[p], full)
      && Ordered(l, full) && Ordered(r, full)
  }

  /** `key` holds the low words of `full`, whose values lie in one window. */
  ghost predicate Window(s: set<Proc>, full: map<Proc, nat>, key: map<Proc, u32>) {
    && Close(s, full) && s <= key.Keys
    && forall p :: p in s ==> key[p] == Wrap(full[p])
  }

  lemma CompareInWindow(s: set<Proc>, p: Proc, q: Proc, full: map<Proc, nat>, key: map<Proc, u32>)
    requires Window(s, full, key) && p in s && q in s
    ensures p in full && q in full && p in key && q in key
    ensures Compare(key[p], key[q]) == -1 <==> full[p] < full[q]
  {
    CompareIsOrder(full[p], full[q]);
  }

  lemma SmallerWindow(s: set<Proc>, r: set<Proc>, full: map<Proc, nat>, key: map<Proc, u32>)
    requires Window(s, full, key) && r <= s
    ensures Window(r, full, key)
  {
  }

  /** The root of the heap with the least stride; for equal strides, that of the second heap. */
  lemma MergeRoot(a: Tree, b: Tree, full: map<Proc, nat>, key: map<Proc, u32>)
    requires a.Node? && b.Node? && Window(Nodes(a) + Nodes(b), full, key)
    ensures a.proc in full && b.proc in full
    ensures Root(Merge(a, b, key)) == if full[a.proc] < full[b.proc] then a.proc else b.proc
  {
    CompareInWindow(Nodes(a) + Nodes(b), a.proc, b.proc, full, key);
  }

  /** An ordered heap holds nothing below its root, and merged heaps nothing below a common bound. */
  lemma MergedAtLeast(a: Tree, b: Tree, v: nat, full: map<Proc, nat>, key: map<Proc, u32>)
    requires Nodes(a) <= key.Keys && Nodes(b) <= key.Keys
    requires AllAtLeast(a, v, full) && Ordered(b, full) && (b.Node? ==> v <= full[b.proc])
    ensures AllAtLeast(Merge(a, b, key), v, full) && AllAtLeast(Merge(b, a, key), v, full)
  {
    hide Merge, Distinct, Size;
    assert AllAtLeast(b, v, full);
  }

  lemma {:induction false} MergeOrdered(a: Tree, b: Tree, full: map<Proc, nat>, key: map<Proc, u32>)
    requires Nodes(a) <= key.Keys && Nodes(b) <= key.Keys
    requires Window(Nodes(a) + Nodes(b), full, key)
    requires Ordered(a, full) && Ordered(b, full)
    ensures Ordered(Merge(a, b, key), full)
  {
    hide AllAtLeast, Window, Compare, Distinct, Size;
    if a.Node? && b.Node? {
      var s := Nodes(a) + Nodes(b);
      CompareInWindow(s, a.proc, b.proc, full, key);
      if full[a.proc] < full[b.proc] {
        SmallerWindow(s, Nodes(a.right) + Nodes(b), full, key);
        MergeOrdered(a.right, b, full, key);
        MergedAtLeast(a.right, b, full[a.proc], full, key);
      } else {
        SmallerWindow(s, Nodes(a) + Nodes(b.right), full, key);
        MergeOrdered(a, b.right, full, key);
        MergedAtLeast(b.right, a, full[b.proc], full, key);
      }
    }
  }

  lemma {:induction false} RemoveOrdered(t: Tree, b: Proc, full: map<Proc, nat>, key: map<Proc, u32>)
    requires b in Nodes(t) && Distinct(t) && Nodes(t) <= key.Keys
    requires Window(Nodes(t) - {b}, full, key)
    requires Ordered(t, full)
    ensures Ordered(Remove(t, b, key), full)
  {
    if t.proc == b {
      MergeOrdered(t.left, t.right, full, key);
    } else if b in Nodes(t.left) {
      RemoveOrdered(t.left, b, full, key);
    } else {
      RemoveOrdered(t.right, b, full, key);
    }
  }

  /** Raising the root's key in place breaks the order only at the root: both subtrees stay
      ordered, so taking that root out restores it. The root had the least value, so raising it by
      at most BIG_STRIDE keeps all values in one window. */
  lemma RaisedRootRemoved(t: Tree, full: map<Proc, nat>, full': map<Proc, nat>, key: map<Proc, u32>)
    requires t.Node? && Distinct(t) && Nodes(t) <= key.Keys && Ordered(t, full)
    requires Window(Nodes(t) - {t.proc}, full, key) && Close(Nodes(t), full)
    requires Nodes(t) <= full'.Keys && forall p :: p in Nodes(t) - {t.proc} ==> full'[p] == full[p]
    requires full[t.proc] <= full'[t.proc] <= full[t.proc] + BIG_STRIDE
    ensures Ordered(Remove(t, t.proc, key), full')
    ensures forall p :: p in Nodes(t) ==> full[t.proc] <= full[p]
    ensures Close(Nodes(t), full')
  {
    MergeOrdered(t.left, t.right, full, key);
    OrderedAgree(Remove(t, t.proc, key), full, full');
  }

  lemma {:induction false} OrderedAgree(t: Tree, f: map<Proc, nat>, g: map<Proc, nat>)
    requires Ordered(t, f)
    requires forall p :: p in Nodes(t) && p in f ==> p in g && g[p] == f[p]
    ensures Ordered(t, g)
  {
    if t.Node? {
      OrderedAgree(t.left, f, g);
      OrderedAgree(t.right, f, g);
    }
  }

  lemma OneOrdered(t: Tree, full: map<Proc, nat>)
    requires t.Node? && t.left.Nil? && t.right.Nil? && Nodes(t) <= full.Keys
    ensures Ordered(t, full)
  {
  }

  // ---------- the pointer heap ----------

  ghost function Keys(s: set<Proc>): (key: map<Proc, u32>)
    reads s`stride
    ensures key.Keys == s && forall p :: p in s ==> key[p] == p.stride
  {
    map p | p in s :: p.stride
  }

  /** Links that were not written are still in place. */
  twostate lemma {:induction false} LinkedFrame(t: Tree)
    requires old(allocated(Nodes(t))) && old(Linked(t))
    requires forall p :: p in Nodes(t) ==> p.left == old(p.left) && p.right == old(p.right)
    requires forall p :: p in Inner(t) ==> p.parent == old(p.parent)
    ensures Linked(t)
  {
    if t.Node? {
      LinkedFrame(t.left);
      LinkedFrame(t.right);
    }
  }

  /** Makes `l` and `r` the children of `p`; `r` already points back to `p`. */
  method Attach(p: Proc, l: Proc?, r: Proc?, ghost tl: Tree, ghost tr: Tree)
    requires l == Root(tl) && r == Root(tr)
    requires Linked(tl) && Linked(tr) && Distinct(Node(tl, p, tr))
    requires r != null ==> r.parent == p
    modifies p`left, p`right, (if l == null then {} else {l})`parent
    ensures Linked(Node(tl, p, tr))
  {
    p.left := l;
    p.right := r;
    if l != null { l.parent := p; }
    LinkedFrame(tl);
    LinkedFrame(tr);
  }

  lemma MergeIs(a: Tree, b: Tree, key: map<Proc, u32>)
    requires Nodes(a) <= key.Keys && Nodes(b) <= key.Keys
    ensures a.Nil? || b.Nil? ==> Merge(a, b, key) == (if a.Nil? then b else a) && Steps(a, b, key) == 0
    ensures a.Node? && b.Node? ==>
      if Compare(key[a.proc], key[b.proc]) == -1
      then
        && Merge(a, b, key) == Node(Merge(a.right, b, key), a.proc, a.left)
        && Steps(a, b, key) == Steps(a.right, b, key) + 1
      else
        && Merge(a, b, key) == Node(Merge(a, b.right, key), b.proc, b.left)
        && Steps(a, b, key) == Steps(a, b.right, key) + 1
  {
  }

  method MergeHeaps(a: Proc?, b: Proc?, ghost ta: Tree, ghost tb: Tree, ghost key: map<Proc, u32>)
    returns (r: Proc?, ghost steps: nat)
    requires a == Root(ta) && b == Root(tb)
    requires Linked(ta) && Linked(tb) && Distinct(ta) && Distinct(tb) && Nodes(ta) !! Nodes(tb)
    requires Nodes(ta) <= key.Keys && Nodes(tb) <= key.Keys
    requires forall p :: p in Nodes(ta) + Nodes(tb) ==> p.stride == key[p]
    modifies (Nodes(ta) + Nodes(tb))`left, (Nodes(ta) + Nodes(tb))`right, (Nodes(ta) + Nodes(tb))`parent
    ensures r == Root(Merge(ta, tb, key)) && steps == Steps(ta, tb, key)
    ensures Linked(Merge(ta, tb, key))
    ensures r != null ==> r.parent == old(r.parent)
    decreases ta, tb
  {
    hide Merge, Steps, Compare;
    MergeIs(ta, tb, key);
    if a == null { return b, 0; }
    if b == null { return a, 0; }
    if Compare(a.stride, b.stride) == -1 {
      var r0 := a.left;
      var l;
      l, steps := MergeHeaps(a.right, b, ta.right, tb, key);
      steps := steps + 1;
      LinkedFrame(ta.left);
      Attach(a, l, r0, Merge(ta.right, tb, key), ta.left);
      r := a;
    } else {
      var r0 := b.left;
      var l;
      l, steps := MergeHeaps(a, b.right, ta, tb.right, key);
      steps := steps + 1;
      LinkedFrame(tb.left);
      Attach(b, l, r0, Merge(ta, tb.right, key), tb.left);
      r := b;
    }
  }

  /** A node becomes the root exactly if no stride is less than its own. */
  lemma InsertedFirst(t: Tree, b: Proc, full: map<Proc, nat>, key: map<Proc, u32>)
    requires b !in Nodes(t) && Window(Nodes(t) + {b}, full, key) && Ordered(t, full)
    ensures Nodes(t) <= full.Keys && b in full
    ensures var r := Root(Merge(t, Node(Nil, b, Nil), key));
      r == b <==> forall q :: q in Nodes(t) ==> full[b] <= full[q]
  {
    if t.Node? {
      CompareInWindow(Nodes(t) + {b}, t.proc, b, full, key);
    }
  }

  method Insert(a: Proc?, b: Proc, ghost t: Tree, ghost key: map<Proc, u32>) returns (r: Proc, ghost t': Tree)
    requires a == Root(t) && Linked(t) && Distinct(t) && b !in Nodes(t)
    requires a != null ==> a.parent == null
    requires Nodes(t) <= key.Keys && b in key
    requires forall p :: p in Nodes(t) + {b} ==> p.stride == key[p]
    modifies (Nodes(t) + {b})`left, (Nodes(t) + {b})`right, (Nodes(t) + {b})`parent
    ensures r == Root(t') && r.parent == null
    ensures Linked(t') && Distinct(t') && Nodes(t') == Nodes(t) + {b} && Size(t') == Size(t) + 1
    ensures forall full :: Window(Nodes(t'), full, key) && Ordered(t, full) ==> Ordered(t', full)
    // it comes before all with an equal or greater stride
    ensures forall full :: Window(Nodes(t'), full, key) && Ordered(t, full) ==>
      (r == b <==> forall q :: q in Nodes(t) ==> full[b] <= full[q])
  {
    hide Ordered, Compare;
    b.left, b.right, b.parent := null, null, null;
    LinkedFrame(t);
    ghost var tb := Node(Nil, b, Nil);
    assert Nodes(tb) == {b};
    ghost var steps;
    r, steps := MergeHeaps(a, b, t, tb, key);
    t' := Merge(t, tb, key);
    forall full | Window(Nodes(t'), full, key) && Ordered(t, full)
      ensures r == b <==> forall q :: q in Nodes(t) ==> full[b] <= full[q]
    {
      InsertedFirst(t, b, full, key);
    }
    forall full | Window(Nodes(t'), full, key) && Ordered(t, full) ensures Ordered(t', full) {
      OneOrdered(tb, full);
      MergeOrdered(t, tb, full, key);
    }
  }

  /** The node of the tree that has `b` as a child. */
  ghost function ParentIn(t: Tree, b: Proc): (p: Proc)
    requires b in Inner(t) && Distinct(t)
    ensures p in Nodes(t) - Nodes(Below(t, b))
  {
    if b in Nodes(t.left) then if b == t.left.proc then t.proc else ParentIn(t.left, b)
    else if b == t.right.proc then t.proc else ParentIn(t.right, b)
  }

  /** Below every node the links agree, and the node's parent link names its parent in the tree. */
  lemma {:induction false} ParentLink(t: Tree, b: Proc)
    requires b in Nodes(t) && Distinct(t) && Linked(t)
    ensures Linked(Below(t, b))
    ensures b in Inner(t) ==> b.parent == ParentIn(t, b)
  {
    if b in Nodes(t.left) {
      ParentLink(t.left, b);
    } else if b in Nodes(t.right) {
      ParentLink(t.right, b);
    }
  }

  /** The merged children of `b` hang below its parent `p`, whose link to `b` now leads to them; all
      other links outside the subtree of `b` are as they were. */
  twostate predicate Redirected(t: Tree, new b: Proc, new p: Proc, new key: map<Proc, u32>)
    requires b in Inner(t) && Distinct(t) && Nodes(t) <= key.Keys && old(allocated(Nodes(t)))
    reads Nodes(t)
  {
    var s := Below(t, b);
    var m := Merge(s.left, s.right, key);
    && old(Linked(t)) && p == ParentIn(t, b)
    && Linked(m) && (m.Node? ==> m.proc.parent == p)
    && forall q :: q in Nodes(t) - Nodes(s) ==>
      && q.left == (if q == p && old(q.left) == b then Root(m) else old(q.left))
      && q.right == (if q == p && old(q.left) != b then Root(m) else old(q.right))
      && q.parent == old(q.parent)
  }

  /** Redirecting one child link splices the merged children of `b` in at its place. */
  twostate lemma {:induction false} Spliced(t: Tree, new b: Proc, new p: Proc, new key: map<Proc, u32>)
    requires b in Inner(t) && Distinct(t) && Nodes(t) <= key.Keys && old(allocated(Nodes(t)))
    requires Redirected(t, b, p, key)
    ensures Linked(Remove(t, b, key))
    decreases t, 1
  {
    if b in Nodes(t.left) {
      SplicedLeft(t, b, p, key);
    } else {
      SplicedRight(t, b, p, key);
    }
  }

  twostate lemma {:induction false} SplicedLeft(t: Tree, new b: Proc, new p: Proc, new key: map<Proc, u32>)
    requires b in Inner(t) && Distinct(t) && Nodes(t) <= key.Keys && old(allocated(Nodes(t)))
    requires b in Nodes(t.left) && Redirected(t, b, p, key)
    ensures Linked(Remove(t, b, key))
    decreases t, 0
  {
    LinkedFrame(t.right);
    assert Below(t, b) == Below(t.left, b);
    if b == t.left.proc {
      assert Below(t.left, b) == t.left;
    } else {
      assert ParentIn(t, b) == ParentIn(t.left, b);
      Spliced(t.left, b, p, key);
    }
  }

  twostate lemma {:induction false} SplicedRight(t: Tree, new b: Proc, new p: Proc, new key: map<Proc, u32>)
    requires b in Inner(t) && Distinct(t) && Nodes(t) <= key.Keys && old(allocated(Nodes(t)))
    requires b in Nodes(t.right) && Redirected(t, b, p, key)
    ensures Linked(Remove(t, b, key))
    decreases t, 0
  {
    LinkedFrame(t.left);
    assert Below(t, b) == Below(t.right, b);
    if b == t.right.proc {
      assert Below(t.right, b) == t.right;
    } else {
      assert ParentIn(t, b) == ParentIn(t.right, b);
      Spliced(t.right, b, p, key);
    }
  }

  /** The merged children of `b`, hung below the parent of `b`. */
  method MergeChildren(b: Proc, ghost s: Tree, ghost key: map<Proc, u32>) returns (rep: Proc?)
    requires s.Node? && s.proc == b && Linked(s) && Distinct(s)
    requires Nodes(s) <= key.Keys && forall p :: p in Inner(s) ==> p.stride == key[p]
    modifies Inner(s)`left, Inner(s)`right, Inner(s)`parent
    ensures rep == Root(Merge(s.left, s.right, key)) && (rep != null ==> rep.parent == b.parent)
    ensures Linked(Merge(s.left, s.right, key))
  {
    ghost var steps;
    rep, steps := MergeHeaps(b.left, b.right, s.left, s.right, key);
    label Merged:
    if rep != null { rep.parent := b.parent; }
    LinkedFrame@Merged(Merge(s.left, s.right, key));
  }

  method RemoveNode(a: Proc, b: Proc, ghost t: Tree, ghost key: map<Proc, u32>) returns (r: Proc?)
    requires a == Root(t) && Linked(t) && Distinct(t) && b in Nodes(t) && a.parent == null
    requires Nodes(t) <= key.Keys && forall p :: p in Nodes(t) ==> p.stride == key[p]
    modifies Nodes(t)`left, Nodes(t)`right, Nodes(t)`parent
    ensures r == Root(Remove(t, b, key)) && (r != null ==> r.parent == null)
    ensures Linked(Remove(t, b, key))
  {
    hide Size;
    ParentLink(t, b);
    ghost var s := Below(t, b);
    var p := b.parent;
    var rep := MergeChildren(b, s, key);
    assert p != null <==> b in Inner(t);
    if p != null {
      label Merged:
      if p.left == b { p.left := rep; } else { p.right := rep; }
      r := a;
      LinkedFrame@Merged(Merge(s.left, s.right, key));
      Spliced(t, b, p, key);
    } else {
      r := rep;
    }
  }
}
