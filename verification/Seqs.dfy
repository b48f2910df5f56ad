/** Sequences with an element put in or taken out, and pages of zeros. */
module Seqs {

  ghost predicate NoDuplicates<T>(s: seq<T>) {
    forall i, j :: 0 <= i < j < |s| ==> s[i] != s[j]
  }

  function With<T>(s: seq<T>, k: nat, x: T): (r: seq<T>)
    requires k <= |s|
    ensures |r| == |s| + 1 && r[k] == x
    ensures forall j {:trigger r[j]} :: 0 <= j < k ==> r[j] == s[j]
    ensures forall j {:trigger r[j]} :: k < j < |r| ==> r[j] == s[j - 1]
  {
    s[..k] + [x] + s[k..]
  }

  function Without<T>(s: seq<T>, k: nat): (r: seq<T>)
    requires k < |s|
    ensures |r| == |s| - 1
    ensures forall j {:trigger r[j]} :: 0 <= j < k ==> r[j] == s[j]
    ensures forall j {:trigger r[j]} :: k <= j < |r| ==> r[j] == s[j + 1]
  {
    s[..k] + s[k + 1..]
  }

  lemma NoDuplicatesWithout<T>(s: seq<T>, k: nat)
    requires NoDuplicates(s) && k < |s|
    ensures NoDuplicates(Without(s, k))
  {
  }

  /** The sequence without the element `x`. */
  function Excluding<T(==)>(s: seq<T>, x: T): (r: seq<T>)
    ensures forall y :: y in r ==> y in s && y != x
    ensures forall y :: y in s && y != x ==> y in r
    ensures |r| <= |s|
  {
    if s == [] then []
    else if s[0] == x then Excluding(s[1..], x)
    else [s[0]] + Excluding(s[1..], x)
  }

  lemma {:induction false} ExcludingOnce<T>(s: seq<T>, i: nat)
    requires i < |s| && NoDuplicates(s)
    ensures Excluding(s, s[i]) == Without(s, i)
  {
    if i == 0 {
      ExcludingNone(s[1..], s[0]);
    } else {
      ExcludingOnce(s[1..], i - 1);
      assert Without(s, i) == [s[0]] + Without(s[1..], i - 1);
    }
  }

  lemma {:induction false} ExcludingNone<T>(s: seq<T>, x: T)
    requires x !in s
    ensures Excluding(s, x) == s
  {
    if s != [] {
      ExcludingNone(s[1..], x);
    }
  }

  lemma {:induction false} ExcludingParts<T>(a: seq<T>, b: seq<T>, x: T)
    ensures Excluding(a + b, x) == Excluding(a, x) + Excluding(b, x)
  {
    if a == [] {
      assert a + b == b;
    } else {
      assert (a + b)[0] == a[0] && (a + b)[1..] == a[1..] + b;
      ExcludingParts(a[1..], b, x);
    }
  }

  function Zeros(n: nat): (r: seq<int>)
    ensures |r| == n && forall j :: 0 <= j < n ==> r[j] == 0
  {
    seq(n, j => 0)
  }
}
