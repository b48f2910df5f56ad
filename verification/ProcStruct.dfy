/** The part of a process descriptor that the lab8 scheduler reads and writes. */
module ProcStruct {
  import opened Words

  const BIG_STRIDE: nat := 0x4000_0000

  datatype State = Uninit | Sleeping | Runnable | Zombie

  class Proc {
    // the skew-heap links (`lab6_run_pool`), embedded in the descriptor
    var left: Proc?
    var right: Proc?
    var parent: Proc?
    var stride: u32          // `lab6_stride`
    var priority: nat
    var state: State
    var waiting: bool        // wait_state != 0
    var runs: nat
    var timeSlice: nat
    var needResched: bool
    var queued: bool         // proc->rq == rq

    constructor (priority: nat, stride: u32)
      ensures this.stride == stride && this.priority == priority
      ensures state == Uninit && !queued
    {
      left, right, parent := null, null, null;
      this.stride, this.priority := stride, priority;
      state, waiting, runs, timeSlice, needResched, queued := Uninit, false, 0, 0, false, false;
    }
  }

  /** The 32-bit two's complement value of the difference of two 32-bit words. */
  function SignedDiff(x: u32, y: u32): int {
    var d := Wrap(x - y);
    if d < 0x8000_0000 then d else d - 0x1_0000_0000
  }

  /** `proc_stride_comp_f`: the sign of the 32-bit difference. */
  function Compare(x: u32, y: u32): int {
    var c := SignedDiff(x, y);
    if c > 0 then 1 else if c == 0 then 0 else -1
  }

  /** How two unbounded strides compare. */
  function Order(a: nat, b: nat): int {
    if a > b then 1 else if a == b then 0 else -1
  }

  /** Comparing wrapped strides that are less than a word apart decides the order of the unbounded ones
      exactly if their difference is one of a 32-bit signed number. */
  lemma CompareIsOrder(a: nat, b: nat)
    requires -0x1_0000_0000 < a - b < 0x1_0000_0000
    ensures Compare(Wrap(a), Wrap(b)) == Order(a, b) <==> -0x8000_0000 <= a - b < 0x8000_0000
  {
  }

  lemma WrapAdd(a: nat, d: nat)
    ensures Wrap(Wrap(a) + d) == Wrap(a + d)
  {
  }

  /** Any two values of `full` on the set are at most BIG_STRIDE apart. */
  ghost predicate Close<T>(s: set<T>, full: map<T, nat>) {
    && s <= full.Keys
    && forall p, q :: p in s && q in s ==> full[p] <= full[q] + BIG_STRIDE
  }

  /** `BIG_STRIDE / priority`, and `BIG_STRIDE` for priority zero. */
  function Pass(priority: nat): nat {
    if priority != 0 then BIG_STRIDE / priority else BIG_STRIDE
  }

  /** The share a priority stands for; zero counts as one. */
  function Weight(priority: nat): (w: nat)
    ensures w > 0
  {
    if priority == 0 then 1 else priority
  }

  lemma QuotientExact(n: nat, d: nat)
    requires d > 0
    ensures n / d * d <= n < (n / d + 1) * d && (n % d == 0 ==> n / d * d == n)
  {
    assert n == n / d * d + n % d;
    assert (n / d + 1) * d == n / d * d + d;
  }

  /** A pass times the weight is BIG_STRIDE, but for less than the weight. */
  lemma PassExact(priority: nat)
    ensures Pass(0) == BIG_STRIDE && (priority > 0 ==> Weight(priority) == priority) && Weight(0) == 1
    ensures Pass(priority) * Weight(priority) <= BIG_STRIDE < (Pass(priority) + 1) * Weight(priority)
    ensures BIG_STRIDE % Weight(priority) == 0 ==> Pass(priority) * Weight(priority) == BIG_STRIDE
  {
    if priority > 0 {
      QuotientExact(BIG_STRIDE, priority);
    }
  }

  lemma Quotient(n: nat, d: nat, q: nat, r: nat)
    requires n == q * d + r && r < d
    ensures q <= n && (q > 0 <==> d <= n)
  {
    if q > 0 {
      assert q * d >= d && q * d >= q;
    }
  }

  lemma Divided(n: nat, d: nat)
    requires d > 0
    ensures 0 <= n / d <= n && (n / d > 0 <==> d <= n)
  {
    Quotient(n, d, n / d, n % d);
  }

  /** A pick moves a process forward exactly when its priority is at most BIG_STRIDE. */
  lemma PassPositive(priority: nat)
    ensures Pass(priority) <= BIG_STRIDE
    ensures Pass(priority) > 0 <==> priority <= BIG_STRIDE
  {
    if priority > 0 {
      Divided(BIG_STRIDE, priority);
    }
  }
}
