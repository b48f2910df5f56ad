/** Processes and the tree of their parent, child and sibling links (Lab5/kern/process/proc.c). */
module ProcTree {
  import opened Options

  datatype State = Uninit | Sleeping | Runnable | Zombie

  /** A `proc_struct`. The process identifier is given when the process is linked. */
  class Proc {
    const pid: int
    ghost const birth: nat        // counts the processes created before
    var state: State
    var exiting: bool             // PF_EXITING
    var waiting: bool             // wait_state is WT_CHILD
    var waitFor: Option<int>      // the argument of the do_wait that the process is suspended in
    var exitCode: int
    var needResched: bool
    var runs: nat
    var parent: Proc?
    var cptr: Proc?
    var yptr: Proc?
    var optr: Proc?

    /** `alloc_proc` */
    constructor (pid: int, ghost birth: nat, parent: Proc?)
      ensures this.pid == pid && this.birth == birth && this.parent == parent
      ensures state == Uninit && !exiting && !waiting && waitFor == None && !needResched && runs == 0 && exitCode == 0
      ensures cptr == null && yptr == null && optr == null
    {
      this.pid, this.birth, this.parent := pid, birth, parent;
      state, exiting, waiting, waitFor, needResched, runs, exitCode := Uninit, false, false, None, false, 0, 0;
      cptr, yptr, optr := null, null, null;
    }
  }

  /** The links of the `i`-th child of `p`: to the next older one and the next younger one. The first
      child may have a link `stale` that leads to a process that has left. */
  ghost predicate Sibling(p: Proc, cs: seq<Proc>, i: int, stale: bool)
    requires 0 <= i < |cs|
    reads {cs[i]}`parent, {cs[i]}`yptr, {cs[i]}`optr
  {
    && cs[i].parent == p
    && (cs[i].yptr == (if i == 0 then null else cs[i - 1]) || (stale && i == 0))
    && cs[i].optr == (if i + 1 < |cs| then cs[i + 1] else null)
  }

  ghost predicate Siblings(p: Proc, cs: seq<Proc>, stale: bool)
    reads p`cptr, cs`parent, cs`yptr, cs`optr
  {
    && p.cptr == (if cs == [] then null else cs[0])
    && (forall i :: 0 <= i < |cs| ==> Sibling(p, cs, i, stale))
    && (forall i, j :: 0 <= i < j < |cs| ==> cs[i] != cs[j])
  }

  /** A process becomes the youngest child. */
  method LinkFirst(p: Proc, c: Proc, ghost cs: seq<Proc>)
    requires Siblings(p, cs, false) && c !in cs && c.parent == p
    modifies p`cptr, c`yptr, c`optr, cs`yptr
    ensures Siblings(p, [c] + cs, false)
    ensures forall x :: x in cs && x != cs[0] ==> x.yptr == old(x.yptr)
  {
    c.yptr := null;
    c.optr := p.cptr;
    if c.optr != null {
      assert Sibling(p, cs, 0, false);
      c.optr.yptr := c;
    }
    p.cptr := c;
    ghost var r := [c] + cs;
    forall i | 0 <= i < |r| ensures Sibling(p, r, i, false) {
      if i > 0 {
        assert old(Sibling(p, cs, i - 1, false));
      }
    }
  }

  /** A process leaves the list of children. */
  method Unlink(p: Proc, c: Proc, ghost cs: seq<Proc>, ghost m: int)
    requires Siblings(p, cs, false) && 0 <= m < |cs| && cs[m] == c
    modifies p`cptr, cs`yptr, cs`optr
    ensures Siblings(p, cs[..m] + cs[m + 1..], false)
  {
    assert Sibling(p, cs, m, false);
    if c.optr != null {
      assert Sibling(p, cs, m + 1, false);
      c.optr.yptr := c.yptr;
    }
    if c.yptr != null {
      assert old(Sibling(p, cs, m - 1, false));
      c.yptr.optr := c.optr;
    } else {
      c.parent.cptr := c.optr;
    }
    ghost var r := cs[..m] + cs[m + 1..];
    forall i | 0 <= i < |r| ensures Sibling(p, r, i, false) {
      assert old(Sibling(p, cs, if i < m then i else i + 1, false));
      assert r[i] == cs[if i < m then i else i + 1];
      assert i > 0 ==> r[i - 1] == cs[if i - 1 < m then i - 1 else i];
      assert i + 1 < |r| ==> r[i + 1] == cs[if i + 1 < m then i + 1 else i + 2];
    }
  }

  /** The first child is taken off the list; the next one keeps its link to it. */
  method PopFirst(p: Proc, ghost cs: seq<Proc>) returns (c: Proc)
    requires Siblings(p, cs, true) && p.cptr != null
    modifies p`cptr
    ensures cs != [] && c == cs[0] && Siblings(p, cs[1..], true)
  {
    assert cs != [];
    assert Sibling(p, cs, 0, true);
    c := p.cptr;
    p.cptr := c.optr;
    forall i | 0 <= i < |cs[1..]| ensures Sibling(p, cs[1..], i, true) {
      assert Sibling(p, cs, i + 1, true);
    }
  }

  // ---------- the tree ----------

  ghost predicate Members(all: set<Proc>, idle: Proc, children: map<Proc, seq<Proc>>) {
    && idle in all && children.Keys == all
    && forall p, c :: p in all && c in children[p] ==> c in all && c != idle
  }

  /** Every process but the idle one is a child of its parent, which is older than itself. */
  ghost predicate Home(all: set<Proc>, children: map<Proc, seq<Proc>>, c: Proc)
    reads {c}`parent
  {
    c.parent != null && c.parent in all && c.parent in children && c in children[c.parent] && c.parent.birth < c.birth
  }

  /** The links are those of a tree with the children of each process in order of age. The links of
      the children of `stale` may be those of the middle of `do_exit`. */
  ghost predicate Family(all: set<Proc>, idle: Proc, children: map<Proc, seq<Proc>>, stale: Proc?)
    reads all`parent, all`cptr, all`yptr, all`optr
  {
    && Members(all, idle, children)
    && (forall p :: p in all ==> Siblings(p, children[p], p == stale))
    && (forall c :: c in all && c != idle ==> Home(all, children, c))
  }

  lemma ChildOf(p: Proc, cs: seq<Proc>, stale: bool, c: Proc)
    requires Siblings(p, cs, stale) && c in cs
    ensures c.parent == p
  {
    var i :| 0 <= i < |cs| && cs[i] == c;
    assert Sibling(p, cs, i, stale);
  }

  /** No process is a child of two. */
  lemma FamiliesApart(all: set<Proc>, idle: Proc, children: map<Proc, seq<Proc>>, stale: Proc?, p: Proc)
    requires Family(all, idle, children, stale) && p in all
    ensures forall q, x :: q in all && q != p && x in children[q] ==> x !in children[p]
  {
    forall q, x | q in all && q != p && x in children[q] ensures x !in children[p] {
      ChildOf(q, children[q], q == stale, x);
      if x in children[p] {
        ChildOf(p, children[p], p == stale, x);
      }
    }
  }

  /** set_links, as far as the tree is concerned. */
  method AddChild(p: Proc, c: Proc, ghost all: set<Proc>, ghost idle: Proc, ghost children: map<Proc, seq<Proc>>)
    requires Family(all, idle, children, null) && p in all && c !in all && c.parent == p && p.birth < c.birth
    requires c.cptr == null
    modifies all`cptr, all`yptr, c`yptr, c`optr
    ensures p in children && Family(all + {c}, idle, WithChild(children, p, c), null)
  {
    hide Home, Members, Sibling;
    MembersAdded(all, idle, children, p, c);
    ghost var cs := children[p];
    HomesAdded(all, idle, children, p, c);
    FamiliesApart(all, idle, children, null, p);
    label before:
    LinkFirst(p, c, cs);
    forall q | q in all && q != p ensures Siblings(q, children[q], false) {
      assert forall x :: x in children[q] ==> x != c && x !in cs;
      Untouched@before(children[q], q, false);
    }
  }

  function WithChild(children: map<Proc, seq<Proc>>, p: Proc, c: Proc): map<Proc, seq<Proc>>
    requires p in children
  {
    children[p := [c] + children[p]][c := []]
  }

  lemma MembersAdded(all: set<Proc>, idle: Proc, children: map<Proc, seq<Proc>>, p: Proc, c: Proc)
    requires Members(all, idle, children) && p in all && c !in all
    ensures p in children && Members(all + {c}, idle, WithChild(children, p, c))
    ensures forall q :: q in all ==> c !in children[q] && q in children
  {
  }

  lemma HomesAdded(all: set<Proc>, idle: Proc, children: map<Proc, seq<Proc>>, p: Proc, c: Proc)
    requires Members(all, idle, children) && forall x :: x in all && x != idle ==> Home(all, children, x)
    requires p in all && c !in all && c.parent == p && p.birth < c.birth
    ensures forall x :: x in all + {c} && x != idle ==> Home(all + {c}, WithChild(children, p, c), x)
  {
    forall x | x in all + {c} && x != idle ensures Home(all + {c}, WithChild(children, p, c), x) {
      assert x != c ==> Home(all, children, x);
    }
  }

  /** Children whose links did not change. */
  twostate lemma Untouched(cs: seq<Proc>, new q: Proc, new stale: bool)
    requires old(allocated(cs)) && old(allocated(q)) && old(Siblings(q, cs, stale))
    requires q.cptr == old(q.cptr)
    requires forall x :: x in cs ==> x.parent == old(x.parent) && x.yptr == old(x.yptr) && x.optr == old(x.optr)
    ensures Siblings(q, cs, stale)
  {
    forall i | 0 <= i < |cs| ensures Sibling(q, cs, i, stale) {
      assert old(Sibling(q, cs, i, stale));
      assert cs[i] in cs;
    }
  }

  /** No process outside `skip` has a child among `changed`. */
  ghost predicate Outside(children: map<Proc, seq<Proc>>, skip: set<Proc>, changed: seq<Proc>) {
    forall q, x :: q in children && q !in skip && x in children[q] ==> x !in changed
  }

  /** Families outside `skip` stay in order while only the links of `changed` are written. */
  twostate lemma OtherFamilies(children: map<Proc, seq<Proc>>, new skip: set<Proc>, new changed: seq<Proc>)
    requires old(allocated(children)) && Outside(children, skip, changed)
    requires old(forall q :: q in children && q !in skip ==> Siblings(q, children[q], false))
    requires forall q :: q in children && q !in skip ==> q.cptr == old(q.cptr)
    requires forall q, x :: q in children && x in children[q] && x !in changed ==>
      x.parent == old(x.parent) && x.yptr == old(x.yptr) && x.optr == old(x.optr)
    ensures forall q :: q in children && q !in skip ==> Siblings(q, children[q], false)
  {
    hide Siblings;
    forall q | q in children && q !in skip ensures Siblings(q, children[q], false) {
      Untouched(children[q], q, false);
    }
  }

  function WithoutChild(children: map<Proc, seq<Proc>>, p: Proc, m: int): map<Proc, seq<Proc>>
    requires p in children && 0 <= m < |children[p]|
  {
    (children - {children[p][m]})[p := children[p][..m] + children[p][m + 1..]]
  }

  lemma MembersRemoved(all: set<Proc>, idle: Proc, children: map<Proc, seq<Proc>>, p: Proc, m: int)
    requires Members(all, idle, children) && p in all && 0 <= m < |children[p]| && children[p][m] != p
    requires forall i, j :: 0 <= i < j < |children[p]| ==> children[p][i] != children[p][j]
    requires forall q, x :: q in all && q != p && x in children[q] ==> x !in children[p]
    ensures Members(all - {children[p][m]}, idle, WithoutChild(children, p, m))
    ensures forall x :: x in children[p] && x != children[p][m] ==> x in WithoutChild(children, p, m)[p]
  {
    var cs, r := children[p], children[p][..m] + children[p][m + 1..];
    forall x | x in r ensures x in cs && x != cs[m] {
      var i :| 0 <= i < |r| && r[i] == x;
      assert r[i] == cs[if i < m then i else i + 1];
    }
    forall x | x in cs && x != cs[m] ensures x in r {
      var i :| 0 <= i < |cs| && cs[i] == x;
      assert r[if i < m then i else i - 1] == x;
    }
    var children' := WithoutChild(children, p, m);
    forall q, x | q in all - {cs[m]} && x in children'[q] ensures x in all - {cs[m]} && x != idle {
      if q == p {
        assert x in r;
      } else {
        assert x in children[q] && cs[m] in children[p];
      }
    }
  }

  lemma HomesRemoved(all: set<Proc>, idle: Proc, children: map<Proc, seq<Proc>>, p: Proc, m: int)
    requires Members(all, idle, children) && p in all && 0 <= m < |children[p]|
    requires forall x :: x in all && x != idle ==> Home(all, children, x)
    requires forall x :: x in children[p] && x != children[p][m] ==> x in WithoutChild(children, p, m)[p]
    requires children[children[p][m]] == []
    ensures forall x :: x in all - {children[p][m]} && x != idle ==>
      Home(all - {children[p][m]}, WithoutChild(children, p, m), x)
  {
    var c := children[p][m];
    forall x | x in all - {c} && x != idle ensures Home(all - {c}, WithoutChild(children, p, m), x) {
      assert Home(all, children, x);
    }
  }

  lemma {:induction false} IndexOf(cs: seq<Proc>, c: Proc) returns (m: int)
    requires c in cs
    ensures 0 <= m < |cs| && cs[m] == c
  {
    m :| 0 <= m < |cs| && cs[m] == c;
  }

  /** remove_links of a process without children. */
  method RemoveChild(c: Proc, ghost all: set<Proc>, ghost idle: Proc, ghost children: map<Proc, seq<Proc>>)
    returns (ghost p: Proc, ghost m: int)
    requires Family(all, idle, children, null) && c in all && c != idle && c in children && children[c] == []
    modifies all`cptr, all`yptr, all`optr
    ensures p == c.parent && p in children && 0 <= m < |children[p]| && children[p][m] == c
    ensures Family(all - {c}, idle, WithoutChild(children, p, m), null)
  {
    hide Members, Sibling, Siblings, Home, Outside;
    AtHome(all, idle, children, c);
    p := c.parent;
    FamilyFacts(all, idle, children, null);
    ghost var cs := children[p];
    m := IndexOf(cs, c);
    FamiliesApart(all, idle, children, null, p);
    OthersOutside(children, p, c);
    NoTwice(p, cs);
    MembersRemoved(all, idle, children, p, m);
    HomesRemoved(all, idle, children, p, m);
    label before:
    Unlink(c.parent, c, cs, m);
    OtherFamilies@before(children, {p, c}, cs);
  }

  lemma OthersOutside(children: map<Proc, seq<Proc>>, p: Proc, c: Proc)
    requires p in children && forall q, x :: q in children && q != p && x in children[q] ==> x !in children[p]
    ensures Outside(children, {p, c}, children[p])
  {
  }

  lemma NoTwice(p: Proc, cs: seq<Proc>)
    requires Siblings(p, cs, false)
    ensures forall i, j :: 0 <= i < j < |cs| ==> cs[i] != cs[j]
  {
  }

  lemma AtHome(all: set<Proc>, idle: Proc, children: map<Proc, seq<Proc>>, c: Proc)
    requires Family(all, idle, children, null) && c in all && c != idle
    ensures c.parent in all && c.parent in children && c in children[c.parent] && c.parent != c
  {
    hide Members, Siblings;
    assert Home(all, children, c);
  }

  lemma FamilyFacts(all: set<Proc>, idle: Proc, children: map<Proc, seq<Proc>>, stale: Proc?)
    requires Family(all, idle, children, stale)
    ensures idle in all && children.Keys == all
    ensures forall p, c :: p in all && c in children[p] ==> c in all && c != idle
  {
  }

  /** The children once the first one of `from` has moved to the front of those of `to`. */
  function Moved(children: map<Proc, seq<Proc>>, from: Proc, to: Proc): map<Proc, seq<Proc>>
    requires from in children && to in children && from != to && children[from] != []
  {
    children[from := children[from][1..]][to := [children[from][0]] + children[to]]
  }

  lemma MembersMoved(all: set<Proc>, idle: Proc, children: map<Proc, seq<Proc>>, from: Proc, to: Proc)
    requires Members(all, idle, children) && from in all && to in all && from != to && children[from] != []
    ensures Members(all, idle, Moved(children, from, to))
  {
    forall q, x | q in all && x in Moved(children, from, to)[q] ensures x in all && x != idle {
      if q == from {
        assert x in children[from];
      } else if q == to && x == children[from][0] {
        assert x in children[from];
      } else {
        assert x in children[q];
      }
    }
  }

  lemma HomesMoved(all: set<Proc>, idle: Proc, children: map<Proc, seq<Proc>>, from: Proc, to: Proc, x: Proc)
    requires Members(all, idle, children) && from in all && to in all && from != to && children[from] != []
    requires Home(all, children, x) && x != children[from][0]
    ensures Home(all, Moved(children, from, to), x)
  {
    if x.parent == from {
      assert children[from] == [children[from][0]] + children[from][1..];
    }
  }

  lemma MovedHome(all: set<Proc>, children: map<Proc, seq<Proc>>, c: Proc, to: Proc)
    requires c.parent == to && to in all && to in children && c in children[to] && to.birth < c.birth
    ensures Home(all, children, c)
  {
  }

  lemma MovedFamily(all: set<Proc>, idle: Proc, children: map<Proc, seq<Proc>>, from: Proc, to: Proc)
    requires children.Keys == all && from in all && to in all && from != to && children[from] != []
    requires Members(all, idle, Moved(children, from, to))
    requires Siblings(from, children[from][1..], true) && Siblings(to, [children[from][0]] + children[to], false)
    requires forall q :: q in children && q !in {from, to} ==> Siblings(q, children[q], false)
    requires forall x :: x in all && x != idle ==> Home(all, Moved(children, from, to), x)
    ensures Family(all, idle, Moved(children, from, to), from)
  {
    hide Members, Siblings, Home;
  }

  lemma MovedApart(all: set<Proc>, idle: Proc, children: map<Proc, seq<Proc>>, from: Proc, to: Proc)
    requires Family(all, idle, children, from) && from in all && to in all && from != to
    ensures from in children && to in children && Members(all, idle, children)
    ensures Siblings(from, children[from], true) && Siblings(to, children[to], false)
    ensures Outside(children, {from, to}, children[from] + children[to])
    ensures forall x :: x in children[from] ==> x !in children[to] && x in all && x != idle
    ensures children[from] != [] ==>
      forall x :: x in children[from][1..] ==> x in children[from] && x != children[from][0]
    ensures forall x :: x in all && x != idle ==> Home(all, children, x)
  {
    hide Home, Sibling;
    FamiliesApart(all, idle, children, from, from);
    FamiliesApart(all, idle, children, from, to);
  }

  /** One round of the loop in `do_exit`: the first child of `from` becomes the first child of `to`. */
  method MoveChild(from: Proc, to: Proc, ghost all: set<Proc>, ghost idle: Proc, ghost children: map<Proc, seq<Proc>>)
    returns (c: Proc)
    requires Family(all, idle, children, from) && from in all && to in all && from != to && from.cptr != null
    requires from in children && forall x :: x in children[from] ==> to.birth < x.birth
    modifies from`cptr, to`cptr, all`yptr, all`optr, all`parent
    ensures to in children && from in children && children[from] != [] && c == children[from][0]
    ensures Family(all, idle, Moved(children, from, to), from)
    ensures forall x :: x in all && x != c ==> x.parent == old(x.parent)
    ensures c.parent == to
  {
    hide Members, Sibling, Siblings, Home, Outside;
    FamilyFacts(all, idle, children, from);
    MovedApart(all, idle, children, from, to);
    ghost var cs, ts := children[from], children[to];
    label before:
    c := PopFirst(from, cs);
    MembersMoved(all, idle, children, from, to);
    forall x | x in all && x != idle && x != c ensures Home(all, Moved(children, from, to), x) {
      HomesMoved(all, idle, children, from, to, x);
    }
    label popped:
    c.parent := to;
    assert Siblings(to, ts, false) by { Untouched@before(ts, to, false); }
    LinkFirst(to, c, ts);
    MovedHome(all, Moved(children, from, to), c, to);
    Untouched@popped(cs[1..], from, true);
    OtherFamilies@before(children, {from, to}, cs + ts);
    MovedFamily(all, idle, children, from, to);
  }

  /** Following the parent links from any process ends at the idle process. */
  ghost function Eldest(all: set<Proc>, idle: Proc, children: map<Proc, seq<Proc>>, p: Proc): (r: Proc)
    requires idle in all && p in all && forall c :: c in all && c != idle ==> Home(all, children, c)
    reads all`parent
    ensures r == idle
    decreases p.birth
  {
    if p == idle then p
    else
      assert Home(all, children, p);
      Eldest(all, idle, children, p.parent)
  }
}
