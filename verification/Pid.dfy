/** `get_pid` and the hash of process identifiers (Lab5/kern/process/proc.c, Lab5/libs/hash.c). */
module Pid {
  import opened Sets

  const MAX_PROCESS: int := 4096
  const MAX_PID: int := 8192

  /** hash32 with ten bits: the product wraps at 32 bits, its upper ten are the bucket. */
  function PidHash(pid: int): (h: int)
    requires 0 <= pid < MAX_PID
    ensures 0 <= h < 1024
  {
    pid * 0x9e37_0001 % 0x1_0000_0000 / 0x40_0000
  }

  /** Every candidate in the range is taken. */
  ghost predicate AllUsed(pids: seq<int>, from: int, to: int) {
    forall q :: from <= q < to ==> q in pids
  }

  /** The first free pid after the last one, in cyclic order from 1 to 8191. */
  ghost predicate NextFree(last: int, pids: seq<int>, pid: int) {
    && 1 <= pid < MAX_PID && pid !in pids
    && if last < pid then forall q :: last < q < pid ==> q in pids
       else (forall q :: last < q < MAX_PID ==> q in pids) && forall q :: 1 <= q < pid ==> q in pids
  }

  /** There is only one. */
  lemma OneNextFree(last: int, pids: seq<int>, p: int, q: int)
    requires NextFree(last, pids, p) && NextFree(last, pids, q)
    ensures p == q
  {
  }

  /** No listed pid lies strictly between. */
  ghost predicate Unlisted(pids: seq<int>, from: int, to: int) {
    forall p :: p in pids ==> !(from < p < to)
  }

  ghost function Candidates(low: int, n: nat): (s: set<int>)
    ensures |s| == n && forall x :: x in s <==> low <= x < low + n
  {
    if n == 0 then {} else Candidates(low, n - 1) + {low + n - 1}
  }

  ghost function Elements(s: seq<int>): (r: set<int>)
    ensures |r| <= |s| && forall x :: x in r <==> x in s
  {
    if s == [] then {} else Elements(s[1..]) + {s[0]}
  }

  /** With fewer pids than candidates, some candidate is free. */
  lemma FreeCandidate(pids: seq<int>, low: int, n: nat) returns (u: int)
    requires |pids| < n
    ensures low <= u < low + n && u !in pids
  {
    if forall x :: low <= x < low + n ==> x in pids {
      SubsetSize(Candidates(low, n), Elements(pids));
      assert false;
    } else {
      u :| low <= u < low + n && u !in pids;
    }
  }

  class PidAllocator {
    var lastPid: int
    var nextSafe: int

    constructor ()
      ensures Valid([]) && lastPid == MAX_PID
    {
      lastPid, nextSafe := MAX_PID, MAX_PID;
    }

    /** The cached interval holds no pid of a listed process. */
    ghost predicate Valid(pids: seq<int>)
      reads this
    {
      1 <= lastPid <= MAX_PID && nextSafe <= MAX_PID && Unlisted(pids, lastPid, nextSafe)
    }

    /** `get_pid`: the first free pid after the last one handed out, going round once at most. */
    method GetPid(pids: seq<int>) returns (pid: int, ghost wrapped: bool)
      requires Valid(pids) && |pids| < MAX_PROCESS
      modifies this
      ensures Valid(pids) && lastPid == pid && 1 <= pid < MAX_PID && pid !in pids
      ensures NextFree(old(lastPid), pids, pid) && (wrapped <==> pid <= old(lastPid))
      ensures forall q :: old(lastPid) < q < 8192 && (wrapped || q < pid) ==> q in pids
      ensures wrapped ==> forall q :: 1 <= q < pid ==> q in pids
    {
      wrapped := false;
      var inside := false;
      lastPid := lastPid + 1;
      if lastPid >= MAX_PID {
        lastPid, inside, wrapped := 1, true, true;
      }
      if inside || lastPid >= nextSafe {
        wrapped := Search(pids, old(lastPid), wrapped);
      }
      pid := lastPid;
    }

    /** The part from `inside` on. */
    method Search(pids: seq<int>, ghost start: int, ghost wrapped0: bool) returns (ghost wrapped: bool)
      requires 1 <= lastPid < MAX_PID && |pids| < MAX_PROCESS
      requires if wrapped0 then AllUsed(pids, start + 1, MAX_PID) && lastPid == 1 else lastPid == start + 1
      modifies this
      ensures Valid(pids) && lastPid < MAX_PID && lastPid !in pids
      ensures !wrapped ==> start < lastPid && AllUsed(pids, start + 1, lastPid)
      ensures wrapped ==> AllUsed(pids, start + 1, MAX_PID) && AllUsed(pids, 1, lastPid)
    {
      wrapped := wrapped0;
      ghost var u := FreeCandidate(pids, 1, MAX_PID - 1);
      nextSafe := MAX_PID;
      var i := 0;
      while i < |pids|
        invariant 0 <= i <= |pids| && 1 <= lastPid < nextSafe <= MAX_PID
        invariant forall j :: 0 <= j < i ==> !(lastPid <= pids[j] < nextSafe)
        invariant wrapped ==> lastPid <= u && AllUsed(pids, start + 1, MAX_PID) && AllUsed(pids, 1, lastPid)
        invariant !wrapped ==> start < lastPid && AllUsed(pids, start + 1, lastPid)
        decreases if lastPid <= u then 0 else 1, MAX_PID - lastPid, |pids| - i
      {
        if pids[i] == lastPid {
          lastPid := lastPid + 1;
          if lastPid >= nextSafe {
            if lastPid >= MAX_PID {
              lastPid, wrapped := 1, true;
            }
            nextSafe := MAX_PID;
            i := 0;
            continue;
          }
        } else if pids[i] > lastPid && nextSafe > pids[i] {
          nextSafe := pids[i];
        }
        i := i + 1;
      }
    }
  }

  /** What was proved for the list also serves when processes have gone. */
  lemma FewerPids(pids: seq<int>, pids': seq<int>, from: int, to: int)
    requires Unlisted(pids, from, to) && forall p :: p in pids' ==> p in pids || p == from
    ensures Unlisted(pids', from, to)
  {
  }
}
