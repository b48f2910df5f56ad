/** What skew heaps are for: over a run of operations, the comparisons of merges are logarithmic in the
    number of nodes on average, though a single merge may take as many as there are nodes. */
module SkewCost {
  import opened ProcStruct
  import opened SkewHeap
  import opened Words

  /** Whether the right subtree is the larger one. */
  ghost function Heavy(t: Tree): nat {
    if t.Node? && Size(t.left) < Size(t.right) then 1 else 0
  }

  /** The potential: the nodes whose right subtree is the larger one. */
  ghost function Potential(t: Tree): nat {
    if t.Nil? then 0 else Heavy(t) + Potential(t.left) + Potential(t.right)
  }

  /** Such nodes on the way down on the left. */
  ghost function LeftSpine(t: Tree): nat {
    if t.Nil? then 0 else Heavy(t) + LeftSpine(t.left)
  }

  /** The other nodes on the way down on the right. */
  ghost function RightSpine(t: Tree): nat {
    if t.Nil? then 0 else 1 - Heavy(t) + RightSpine(t.right)
  }

  ghost function Log2(n: nat): nat {
    if n < 2 then 0 else Log2(n / 2) + 1
  }

  ghost function Power(k: nat): nat {
    if k == 0 then 1 else 2 * Power(k - 1)
  }

  lemma {:induction false} LogMeans(n: nat)
    requires n > 0
    ensures Power(Log2(n)) <= n < 2 * Power(Log2(n))
  {
    if n >= 2 {
      LogMeans(n / 2);
    }
  }

  lemma {:induction false} LogGrows(m: nat, n: nat)
    requires m <= n
    ensures Log2(m) <= Log2(n)
  {
    if m >= 2 {
      LogGrows(m / 2, n / 2);
    }
  }

  lemma LogDoubles(n: nat)
    requires n > 0
    ensures Log2(2 * n) == Log2(n) + 1
  {
  }

  /** Going down such a spine at least halves the size at every step. */
  lemma {:induction false} SpinesShort(t: Tree)
    ensures LeftSpine(t) <= Log2(Size(t) + 1) && RightSpine(t) <= Log2(Size(t) + 1)
  {
    hide Log2;
    if t.Nil? {
      LogGrows(0, 1);
    } else {
      SpinesShort(t.left);
      SpinesShort(t.right);
      var next := if Heavy(t) == 1 then t.left else t.right;
      LogDoubles(Size(next) + 1);
      LogGrows(2 * (Size(next) + 1), Size(t) + 1);
      LogGrows(Size(t.left) + 1, Size(t) + 1);
      LogGrows(Size(t.right) + 1, Size(t) + 1);
    }
  }

  lemma SpinesBounded(t: Tree, n: nat)
    requires Size(t) + 1 <= n
    ensures LeftSpine(t) <= Log2(n) && RightSpine(t) <= Log2(n)
  {
    hide Log2, LeftSpine, RightSpine, Size;
    SpinesShort(t);
    LogGrows(Size(t) + 1, n);
  }

  /** A merge pays for its comparisons with potential, but for the spines. */
  lemma {:induction false} MergePays(a: Tree, b: Tree, key: map<Proc, u32>)
    requires Nodes(a) <= key.Keys && Nodes(b) <= key.Keys
    ensures var m := Merge(a, b, key);
      Steps(a, b, key) + Potential(m)
      <= Potential(a) + Potential(b) + LeftSpine(m) + RightSpine(a) + RightSpine(b)
    decreases a, b
  {
    hide Compare, Distinct, Size, Heavy;
    if a.Node? && b.Node? {
      if Compare(key[a.proc], key[b.proc]) == -1 {
        MergePays(a.right, b, key);
      } else {
        MergePays(a, b.right, key);
      }
    }
  }

  /** What the scheduler does to its heap: a process is put in, or the one at the root is taken out. */
  datatype Op = Put(key: map<Proc, u32>, p: Proc) | Pop(key: map<Proc, u32>)

  ghost predicate Ready(t: Tree, op: Op) {
    && Nodes(t) <= op.key.Keys && Distinct(t)
    && match op
       case Put(key, p) => p in key && p !in Nodes(t)
       case Pop(_) => t.Node?
  }

  ghost function Single(p: Proc): Tree { Node(Nil, p, Nil) }

  lemma SingleFacts(p: Proc)
    ensures Nodes(Single(p)) == {p} && Distinct(Single(p)) && Size(Single(p)) == 1
    ensures RightSpine(Single(p)) == 1 && Potential(Single(p)) == 0 && Potential(Nil) == 0
  {
  }

  lemma Parts(t: Tree)
    requires t.Node?
    ensures Potential(t) >= Potential(t.left) + Potential(t.right) && Size(t) == Size(t.left) + 1 + Size(t.right)
    ensures Nodes(t.left) <= Nodes(t) && Nodes(t.right) <= Nodes(t)
  {
  }

  ghost function After(t: Tree, op: Op): (t': Tree)
    requires Ready(t, op)
    ensures Distinct(t') && Size(t') == if op.Put? then Size(t) + 1 else Size(t) - 1
  {
    match op
    case Put(key, p) =>
      SingleFacts(p);
      Merge(t, Single(p), key)
    case Pop(key) => Remove(t, t.proc, key)
  }

  ghost function Cost(t: Tree, op: Op): nat
    requires Ready(t, op)
  {
    match op
    case Put(key, p) =>
      SingleFacts(p);
      Steps(t, Single(p), key)
    case Pop(key) => Steps(t.left, t.right, key)
  }

  lemma PutPays(t: Tree, p: Proc, key: map<Proc, u32>)
    requires Nodes(t) <= key.Keys && Nodes(Single(p)) <= key.Keys
    ensures Steps(t, Single(p), key) + Potential(Merge(t, Single(p), key))
         <= Potential(t) + 2 * Log2(Size(t) + 2) + 1
  {
    hide Merge, Steps, Distinct, Log2, Potential, Size, LeftSpine, RightSpine, Nodes, Single;
    SingleFacts(p);
    MergePays(t, Single(p), key);
    SpinesBounded(t, Size(t) + 2);
    SpinesBounded(Merge(t, Single(p), key), Size(t) + 2);
  }

  lemma PopPays(t: Tree, key: map<Proc, u32>)
    requires t.Node? && Nodes(t) <= key.Keys
    ensures Nodes(t.left) <= key.Keys && Nodes(t.right) <= key.Keys
    ensures Steps(t.left, t.right, key) + Potential(Merge(t.left, t.right, key)) <= Potential(t) + 3 * Log2(Size(t) + 2)
  {
    hide Merge, Steps, Distinct, Log2, Potential, Size, LeftSpine, RightSpine, Nodes;
    Parts(t);
    var m := Merge(t.left, t.right, key);
    MergePays(t.left, t.right, key);
    SpinesBounded(t.left, Size(t) + 2);
    SpinesBounded(t.right, Size(t) + 2);
    SpinesBounded(m, Size(t) + 2);
    Paid(Steps(t.left, t.right, key) + Potential(m), Potential(t.left) + Potential(t.right), Potential(t),
         LeftSpine(m), RightSpine(t.left), RightSpine(t.right), Log2(Size(t) + 2));
  }

  lemma Paid(cost: nat, before: nat, all: nat, x: nat, y: nat, z: nat, log: nat)
    requires cost <= before + x + y + z && before <= all && x <= log && y <= log && z <= log
    ensures cost <= all + 3 * log
  {
  }

  /** Each operation costs a logarithm, but for potential. */
  lemma OperationPays(t: Tree, op: Op)
    requires Ready(t, op)
    ensures Cost(t, op) + Potential(After(t, op)) <= Potential(t) + 3 * Log2(Size(t) + 2) + 1
  {
    hide Merge, Steps, Distinct, Log2, Potential, Size, Nodes, Single;
    match op
    case Put(key, p) =>
      SingleFacts(p);
      PutPays(t, p, key);
    case Pop(key) => PopPays(t, key);
  }

  /** The heaps of a run, from an empty one on. */
  ghost predicate HeapRun(heaps: seq<Tree>, ops: seq<Op>) {
    && |heaps| == |ops| + 1 && heaps[0] == Nil
    && forall k :: 0 <= k < |ops| ==> Ready(heaps[k], ops[k]) && heaps[k + 1] == After(heaps[k], ops[k])
  }

  ghost function Work(heaps: seq<Tree>, ops: seq<Op>, k: nat): nat
    requires HeapRun(heaps, ops) && k <= |ops|
  {
    if k == 0 then 0 else Work(heaps, ops, k - 1) + Cost(heaps[k - 1], ops[k - 1])
  }

  /** Over any run in which there are never more than `n` processes, an operation takes 3 log(n + 2) + 1 comparisons
      on average. */
  lemma {:induction false} RunPays(heaps: seq<Tree>, ops: seq<Op>, k: nat, n: nat)
    requires HeapRun(heaps, ops) && k <= |ops| && forall j :: 0 <= j < k ==> Size(heaps[j]) <= n
    ensures Work(heaps, ops, k) + Potential(heaps[k]) <= k * (3 * Log2(n + 2) + 1)
  {
    hide After, Cost, Potential, Size, Log2, Ready;
    if k == 0 {
      assert Potential(Nil) == 0 by { NoPotential(); }
    } else {
      RunPays(heaps, ops, k - 1, n);
      OperationPays(heaps[k - 1], ops[k - 1]);
      LogGrows(Size(heaps[k - 1]) + 2, n + 2);
      Once(k - 1, 3 * Log2(n + 2) + 1);
    }
  }

  lemma NoPotential()
    ensures Potential(Nil) == 0
  {
  }

  lemma Once(k: nat, c: nat)
    ensures (k + 1) * c == k * c + c
  {
  }
}
