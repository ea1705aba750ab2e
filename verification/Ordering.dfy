/** Sorting, partition points and sums that ignore order, as the standard library provides them. */
module Ordering {

  ghost predicate TotalPreorder<T(!new)>(le: (T, T) -> bool) {
    && (forall a, b :: le(a, b) || le(b, a))
    && (forall a, b, c :: le(a, b) && le(b, c) ==> le(a, c))
  }

  ghost predicate SortedBy<T>(le: (T, T) -> bool, s: seq<T>) {
    forall i, j :: 0 <= i < j < |s| ==> le(s[i], s[j])
  }

  ghost predicate Distinct<T>(s: seq<T>) {
    forall i, j :: 0 <= i < j < |s| ==> s[i] != s[j]
  }

  /** Binary search for the first element on which `p` fails. */
  function PartitionPoint<T>(xs: seq<T>, p: T -> bool): (n: nat)
    requires forall i, j :: 0 <= i < j < |xs| && p(xs[j]) ==> p(xs[i])
    ensures n <= |xs|
    ensures forall i :: 0 <= i < n ==> p(xs[i])
    ensures forall i :: n <= i < |xs| ==> !p(xs[i])
  {
    if xs == [] then 0
    else
      var middle := |xs| / 2;
      if p(xs[middle]) then
        var after := PartitionPoint(xs[middle + 1..], p);
        assert forall i :: middle < i < |xs| ==> xs[i] == xs[middle + 1..][i - middle - 1];
        middle + 1 + after
      else PartitionPoint(xs[..middle], p)
  }

  /** Places `x` before the first element it compares at most equal to. */
  function Insert<T(!new)>(le: (T, T) -> bool, x: T, s: seq<T>): (r: seq<T>)
    requires TotalPreorder(le)
    requires SortedBy(le, s)
    ensures SortedBy(le, r)
    ensures multiset(r) == multiset{x} + multiset(s)
  {
    var k := PartitionPoint(s, y => !le(x, y));
    assert s == s[..k] + s[k..];
    s[..k] + [x] + s[k..]
  }

  /** A stable sort: an element is placed before the later ones it compares equal to. */
  function Sort<T(!new)>(le: (T, T) -> bool, s: seq<T>): (r: seq<T>)
    requires TotalPreorder(le)
    ensures SortedBy(le, r)
    ensures multiset(r) == multiset(s)
  {
    if s == [] then []
    else
      assert s == [s[0]] + s[1..];
      Insert(le, s[0], Sort(le, s[1..]))
  }

  function Sum<T>(weight: T -> nat, s: seq<T>): nat {
    if s == [] then 0 else weight(s[0]) + Sum(weight, s[1..])
  }

  lemma {:induction false} SumAppend<T>(weight: T -> nat, a: seq<T>, b: seq<T>)
    ensures Sum(weight, a + b) == Sum(weight, a) + Sum(weight, b)
  {
    if a == [] {
      assert a + b == b;
    } else {
      assert (a + b)[1..] == a[1..] + b;
      SumAppend(weight, a[1..], b);
    }
  }

  /** A sum depends only on which elements are added, not on their order. */
  lemma {:induction false} SumIgnoresOrder<T>(weight: T -> nat, a: seq<T>, b: seq<T>)
    requires multiset(a) == multiset(b)
    ensures Sum(weight, a) == Sum(weight, b)
  {
    if a == [] {
      assert |multiset(b)| == 0;
    } else {
      var x := a[0];
      assert a == [x] + a[1..];
      assert multiset(a) == multiset{x} + multiset(a[1..]);
      assert x in multiset(b);
      var k :| 0 <= k < |b| && b[k] == x;
      assert b == b[..k] + [x] + b[k + 1..];
      assert multiset(b) == multiset(b[..k]) + multiset{x} + multiset(b[k + 1..]);
      assert multiset(b[..k] + b[k + 1..]) == multiset(b) - multiset{x};
      assert multiset(a[1..]) == multiset(a) - multiset{x};
      SumIgnoresOrder(weight, a[1..], b[..k] + b[k + 1..]);
      SumAppend(weight, b[..k], b[k + 1..]);
      SumAppend(weight, b[..k] + [x], b[k + 1..]);
      SumAppend(weight, b[..k], [x]);
    }
  }
}
