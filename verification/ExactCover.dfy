/** Joining authored entries to an expected key set: every key once, and nothing else. */
module ExactCover {
  import opened Ordering

  datatype Entry<K, V> = Entry(key: K, value: V)

  /** What a join has collected, and how many problems it reported on the way. */
  datatype Join<K, V> = Join(found: map<K, V>, errors: nat)

  /** One entry: unknown and repeated keys are reported and skipped, invalid ones reported and kept. */
  function Offer<K, V>(expected: set<K>, valid: Entry<K, V> -> bool, join: Join<K, V>, entry: Entry<K, V>): Join<K, V> {
    if entry.key !in expected || entry.key in join.found then join.(errors := join.errors + 1)
    else Join(join.found[entry.key := entry.value], if valid(entry) then join.errors else join.errors + 1)
  }

  function JoinAll<K, V>(expected: set<K>, valid: Entry<K, V> -> bool, from: Join<K, V>, entries: seq<Entry<K, V>>): Join<K, V>
    decreases |entries|
  {
    if entries == [] then from
    else JoinAll(expected, valid, Offer(expected, valid, from, entries[0]), entries[1..])
  }

  ghost predicate KeysDistinct<K, V>(entries: seq<Entry<K, V>>) {
    forall i, j :: 0 <= i < j < |entries| ==> entries[i].key != entries[j].key
  }

  ghost predicate HasKey<K, V>(entries: seq<Entry<K, V>>, k: K) {
    exists e :: e in entries && e.key == k
  }

  /** Every expected key has exactly one entry, there are no other entries, and all are valid. */
  ghost predicate Covers<K, V>(expected: set<K>, valid: Entry<K, V> -> bool, entries: seq<Entry<K, V>>) {
    && KeysDistinct(entries)
    && (forall e :: e in entries ==> e.key in expected && valid(e))
    && (forall k :: k in expected ==> HasKey(entries, k))
  }

  lemma {:induction false} JoinAllAppend<K, V>(expected: set<K>, valid: Entry<K, V> -> bool, from: Join<K, V>,
                                               a: seq<Entry<K, V>>, b: seq<Entry<K, V>>)
    ensures JoinAll(expected, valid, from, a + b) == JoinAll(expected, valid, JoinAll(expected, valid, from, a), b)
    decreases |a|
  {
    if a == [] {
      assert a + b == b;
    } else {
      assert (a + b)[1..] == a[1..] + b;
      JoinAllAppend(expected, valid, Offer(expected, valid, from, a[0]), a[1..], b);
    }
  }

  /** Errors never go away. */
  lemma {:induction false} ErrorsGrow<K, V>(expected: set<K>, valid: Entry<K, V> -> bool, from: Join<K, V>, entries: seq<Entry<K, V>>)
    ensures from.errors <= JoinAll(expected, valid, from, entries).errors
    decreases |entries|
  {
    if entries != [] {
      ErrorsGrow(expected, valid, Offer(expected, valid, from, entries[0]), entries[1..]);
    }
  }

  /** Two joins that agree on whether there was a problem and, if there was none, on what they collected. */
  ghost predicate Alike<K, V>(a: Join<K, V>, b: Join<K, V>) {
    (a.errors == 0 <==> b.errors == 0) && (a.errors == 0 ==> a.found == b.found)
  }

  /** A loop that keeps its problems and otherwise offers the next entry stays alike. */
  lemma AlikeStep<K, V>(expected: set<K>, valid: Entry<K, V> -> bool, entries: seq<Entry<K, V>>, i: nat,
                        join: Join<K, V>, next: Join<K, V>)
    requires i < |entries|
    requires Alike(join, JoinAll(expected, valid, Join(map[], 0), entries[..i]))
    requires join.errors > 0 ==> next.errors > 0
    requires join.errors == 0 ==> Alike(next, Offer(expected, valid, join, entries[i]))
    ensures Alike(next, JoinAll(expected, valid, Join(map[], 0), entries[..i + 1]))
  {
    var reference := JoinAll(expected, valid, Join(map[], 0), entries[..i]);
    assert entries[..i + 1] == entries[..i] + [entries[i]];
    JoinAllAppend(expected, valid, Join(map[], 0), entries[..i], [entries[i]]);
    assert JoinAll(expected, valid, reference, [entries[i]]) == Offer(expected, valid, reference, entries[i]);
    if join.errors == 0 {
      assert join == reference;
    }
  }

  /** The entries continue a clean join cleanly. */
  ghost predicate Continues<K, V>(expected: set<K>, valid: Entry<K, V> -> bool, found: map<K, V>, entries: seq<Entry<K, V>>) {
    && KeysDistinct(entries)
    && forall e :: e in entries ==> e.key in expected && valid(e) && e.key !in found
  }

  lemma {:induction false} CleanJoin<K, V>(expected: set<K>, valid: Entry<K, V> -> bool, found: map<K, V>, entries: seq<Entry<K, V>>)
    ensures var join := JoinAll(expected, valid, Join(found, 0), entries);
      && (join.errors == 0 <==> Continues(expected, valid, found, entries))
      && (join.errors == 0 ==>
            && (forall k :: k in join.found ==> k in found || HasKey(entries, k))
            && (forall k :: k in found ==> k in join.found && join.found[k] == found[k])
            && (forall e :: e in entries ==> e.key in join.found && join.found[e.key] == e.value))
    decreases |entries|
  {
    if entries != [] {
      var first, rest := entries[0], entries[1..];
      assert entries == [first] + rest;
      if first.key in expected && first.key !in found && valid(first) {
        var more := found[first.key := first.value];
        CleanJoin(expected, valid, more, rest);
        ContinuesStep(expected, valid, found, entries);
        var join := JoinAll(expected, valid, Join(found, 0), entries);
        if join.errors == 0 {
          forall k | k in join.found
            ensures k in found || HasKey(entries, k)
          {
            assert k in more || HasKey(rest, k);
            assert k == first.key ==> first in entries;
          }
        }
      } else {
        ErrorsGrow(expected, valid, Offer(expected, valid, Join(found, 0), first), rest);
        assert first in entries;
      }
    }
  }

  lemma ContinuesStep<K, V>(expected: set<K>, valid: Entry<K, V> -> bool, found: map<K, V>, entries: seq<Entry<K, V>>)
    requires entries != []
    requires entries[0].key in expected && entries[0].key !in found && valid(entries[0])
    ensures Continues(expected, valid, found, entries) <==>
      Continues(expected, valid, found[entries[0].key := entries[0].value], entries[1..])
  {
    var first, rest := entries[0], entries[1..];
    var more := found[first.key := first.value];
    if Continues(expected, valid, found, entries) {
      forall e | e in rest
        ensures e.key in expected && valid(e) && e.key !in more
      {
        var k :| 0 <= k < |rest| && rest[k] == e;
        assert entries[k + 1] == e;
        assert e in entries;
      }
    }
    if Continues(expected, valid, more, rest) {
      forall i, j | 0 <= i < j < |entries|
        ensures entries[i].key != entries[j].key
      {
        assert entries[j] == rest[j - 1];
        assert rest[j - 1] in rest;
        if i > 0 {
          assert entries[i] == rest[i - 1];
        }
      }
      forall e | e in entries
        ensures e.key in expected && valid(e) && e.key !in found
      {
        if e != first {
          assert e in rest;
        }
      }
    }
  }

  /** A clean join that misses no key is exactly a cover, and it collects exactly the entries. */
  lemma CleanJoinIsCover<K, V>(expected: set<K>, valid: Entry<K, V> -> bool, entries: seq<Entry<K, V>>)
    ensures var join := JoinAll(expected, valid, Join(map[], 0), entries);
      && (join.errors == 0 && expected <= join.found.Keys <==> Covers(expected, valid, entries))
      && (Covers(expected, valid, entries) ==>
            && join.found.Keys == expected
            && forall e :: e in entries ==> e.key in join.found && join.found[e.key] == e.value)
  {
    var nothing: map<K, V> := map[];
    CleanJoin(expected, valid, nothing, entries);
    var join := JoinAll(expected, valid, Join(nothing, 0), entries);
    assert Continues(expected, valid, nothing, entries) <==>
      KeysDistinct(entries) && forall e :: e in entries ==> e.key in expected && valid(e);
    if join.errors == 0 {
      forall k | k in join.found
        ensures k in expected
      {
        assert k in nothing || HasKey(entries, k);
      }
    }
  }

  /** A cover and what it collects do not depend on the order of the entries. */
  lemma CoverIgnoresOrder<K, V>(expected: set<K>, valid: Entry<K, V> -> bool, a: seq<Entry<K, V>>, b: seq<Entry<K, V>>)
    requires multiset(a) == multiset(b) && Covers(expected, valid, a)
    ensures Covers(expected, valid, b)
    ensures JoinAll(expected, valid, Join(map[], 0), a).found == JoinAll(expected, valid, Join(map[], 0), b).found
  {
    SameMembers(a, b);
    DistinctIgnoresOrder(a, b);
    CleanJoinIsCover(expected, valid, a);
    CleanJoinIsCover(expected, valid, b);
    var one := JoinAll(expected, valid, Join(map[], 0), a).found;
    var other := JoinAll(expected, valid, Join(map[], 0), b).found;
    forall k | k in expected
      ensures one[k] == other[k]
    {
      var e :| e in a && e.key == k;
      assert e in b;
    }
  }

  lemma SameMembers<T>(a: seq<T>, b: seq<T>)
    requires multiset(a) == multiset(b)
    ensures forall x :: x in a <==> x in b
  {
    assert forall x :: x in a <==> x in multiset(a);
    assert forall x :: x in b <==> x in multiset(b);
  }

  lemma {:induction false} DistinctIgnoresOrder<K, V>(a: seq<Entry<K, V>>, b: seq<Entry<K, V>>)
    requires multiset(a) == multiset(b) && KeysDistinct(a)
    ensures KeysDistinct(b)
  {
    forall i, j | 0 <= i < j < |b|
      ensures b[i].key != b[j].key
    {
      SameMembers(a, b);
      assert b[i] in b && b[j] in b;
      var m :| 0 <= m < |a| && a[m] == b[i];
      var n :| 0 <= n < |a| && a[n] == b[j];
      if m == n {
        TwiceMeansTwo(b, i, j);
        OnceMeansOne(a, m);
        assert false;
      }
    }
  }

  lemma TwiceMeansTwo<T>(s: seq<T>, i: nat, j: nat)
    requires i < j < |s| && s[i] == s[j]
    ensures multiset(s)[s[i]] >= 2
  {
    assert s == s[..j] + s[j..];
    assert s[i] == s[..j][i] && s[..j][i] in multiset(s[..j]);
    assert s[j] == s[j..][0] && s[j..][0] in multiset(s[j..]);
    assert multiset(s) == multiset(s[..j]) + multiset(s[j..]);
  }

  lemma {:induction false} OnceMeansOne<K, V>(s: seq<Entry<K, V>>, m: nat)
    requires m < |s| && KeysDistinct(s)
    ensures multiset(s)[s[m]] == 1
  {
    assert s == s[..m] + [s[m]] + s[m + 1..];
    assert s[m] !in s[..m] && s[m] !in s[m + 1..];
    assert multiset(s) == multiset(s[..m]) + multiset{s[m]} + multiset(s[m + 1..]);
  }

  lemma SameHead<T(!new)>(le: (T, T) -> bool, a: seq<T>, b: seq<T>)
    requires SortedBy(le, a) && SortedBy(le, b) && multiset(a) == multiset(b)
    requires a != [] && b != []
    requires forall x, y :: x in a && y in a && le(x, y) && le(y, x) ==> x == y
    ensures a[0] == b[0]
  {
    SameMembers(a, b);
    assert a[0] in b && b[0] in a;
    var i :| 0 <= i < |a| && a[i] == b[0];
    var j :| 0 <= j < |b| && b[j] == a[0];
    assert i == 0 || le(a[0], a[i]);
    assert j == 0 || le(b[0], b[j]);
  }

  lemma TailMembers<T>(a: seq<T>, b: seq<T>)
    requires a != [] && b != [] && a[0] == b[0] && multiset(a) == multiset(b)
    ensures multiset(a[1..]) == multiset(b[1..])
  {
    assert a == [a[0]] + a[1..];
    assert b == [b[0]] + b[1..];
    assert multiset(a[1..]) == multiset(a) - multiset{a[0]};
    assert multiset(b[1..]) == multiset(b) - multiset{b[0]};
  }

  /** A sorted arrangement under an antisymmetric order is unique. */
  lemma {:induction false} SortedIsUnique<T(!new)>(le: (T, T) -> bool, a: seq<T>, b: seq<T>)
    requires SortedBy(le, a) && SortedBy(le, b) && multiset(a) == multiset(b)
    requires forall x, y :: x in a && y in a && le(x, y) && le(y, x) ==> x == y
    ensures a == b
  {
    if a == [] {
      assert |multiset(b)| == 0;
    } else {
      assert |multiset(b)| == |multiset(a)|;
      SameHead(le, a, b);
      TailMembers(a, b);
      assert forall x :: x in a[1..] ==> x in a;
      SortedIsUnique(le, a[1..], b[1..]);
      assert a == [a[0]] + a[1..];
      assert b == [b[0]] + b[1..];
    }
  }
}
