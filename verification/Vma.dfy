/** The areas of an address space (lab3/kern/mm/vmm.c): a list ordered by address, with the area that
    was looked up last kept at hand. */
module Vma {
  import opened Options

  datatype Area = Area(start: int, end: int, flags: int) {
    predicate Contains(addr: int) { start <= addr < end }

    predicate Overlaps(other: Area) { start < other.end && other.start < end }

    /** VM_WRITE is the bit of value 2. */
    predicate Writable() { flags / 2 % 2 == 1 }
  }

  /** Areas in ascending order, none empty, none overlapping the next. */
  ghost predicate Ascending(s: seq<Area>) {
    && (forall i :: 0 <= i < |s| ==> s[i].start < s[i].end)
    && forall i, j :: 0 <= i < j < |s| ==> s[i].end <= s[j].start
  }

  /** An address is in one area at most. */
  lemma OneArea(s: seq<Area>, a: Area, b: Area, addr: int)
    requires Ascending(s) && a in s && b in s && a.Contains(addr) && b.Contains(addr)
    ensures a == b
  {
    var i :| 0 <= i < |s| && s[i] == a;
    var j :| 0 <= j < |s| && s[j] == b;
    assert i == j;
  }

  lemma Inserted(s: seq<Area>, i: int, a: Area)
    requires Ascending(s) && 0 <= i <= |s| && a.start < a.end
    requires (i > 0 ==> s[i - 1].end <= a.start) && (i < |s| ==> a.end <= s[i].start)
    ensures Ascending(s[..i] + [a] + s[i..]) && forall b :: b in s ==> !b.Overlaps(a)
  {
    var r := s[..i] + [a] + s[i..];
    forall k | 0 <= k < i ensures s[k].end <= a.start {
      assert s[k].end <= s[k].start || k == i - 1 || s[k].end <= s[i - 1].start;
    }
    forall k | i <= k < |s| ensures a.end <= s[k].start {
      assert k == i || s[i].end <= s[k].start;
    }
    forall k, l | 0 <= k < l < |r| ensures r[k].end <= r[l].start {
      assert k < i ==> r[k] == s[k];
      assert l > i ==> r[l] == s[l - 1];
      assert k > i ==> r[k] == s[k - 1];
      assert l < i ==> r[l] == s[l];
    }
  }

  class Areas {
    var list: seq<Area>
    var cache: Option<Area>

    constructor ()
      ensures Valid() && list == [] && cache == None
    {
      list, cache := [], None;
    }

    ghost predicate Valid()
      reads this
    {
      Ascending(list) && (cache.Some? ==> cache.value in list)
    }

    /** `find_vma` */
    method Find(addr: int) returns (r: Option<Area>)
      requires Valid()
      modifies this`cache
      ensures Valid() && cache == (if r.Some? then r else old(cache))
      ensures r.Some? <==> exists a :: a in list && a.Contains(addr)
      ensures r.Some? ==> r.value in list && r.value.Contains(addr)
    {
      r := cache;
      if !(r.Some? && r.value.start <= addr && r.value.end > addr) {
        r := None;
        for i := 0 to |list|
          invariant r.None? && forall j :: 0 <= j < i ==> !list[j].Contains(addr)
        {
          if list[i].start <= addr && addr < list[i].end {
            r := Some(list[i]);
            break;
          }
        }
      }
      if r.Some? {
        cache := r;
      }
    }

    /** `insert_vma_struct`; `ok` says that no assertion of it fails. */
    method Insert(area: Area) returns (ok: bool)
      requires Valid()
      modifies this`list
      ensures Valid()
      ensures ok <==> area.start < area.end && forall a :: a in old(list) ==> !a.Overlaps(area)
      ensures !ok ==> list == old(list)
      ensures ok ==> exists i :: 0 <= i <= |old(list)| && list == old(list)[..i] + [area] + old(list)[i..]
    {
      if area.start >= area.end {
        return false;
      }
      var i := 0;
      while i < |list| && list[i].start <= area.start
        invariant 0 <= i <= |list| && forall j :: 0 <= j < i ==> list[j].start <= area.start
      {
        i := i + 1;
      }
      if i > 0 && list[i - 1].end > area.start {
        assert list[i - 1] in list && list[i - 1].Overlaps(area);
        return false;
      }
      if i < |list| && area.end > list[i].start {
        assert list[i] in list && list[i].Overlaps(area);
        return false;
      }
      Inserted(list, i, area);
      list := list[..i] + [area] + list[i..];
      return true;
    }
  }
}
