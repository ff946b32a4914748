/** The two query primitives the views use: `filter(...)` and `order_by(...)`.
    The database gives no order among rows with equal keys, so an ordering
    is specified only as "sorted and a permutation". */
module Sorting {

  /** `le` compares every pair of values and is transitive. */
  ghost predicate TotalPreorder<T(!new)>(le: (T, T) -> bool)
  {
    (forall a, b :: le(a, b) || le(b, a)) &&
    (forall a, b, c :: le(a, b) && le(b, c) ==> le(a, c))
  }

  /** Every earlier element is `le` every later one. */
  ghost predicate Sorted<T>(s: seq<T>, le: (T, T) -> bool)
  {
    forall i, j :: 0 <= i < j < |s| ==> le(s[i], s[j])
  }

  /** Places `x` into the sorted sequence `s`, before the first element it is `le` to. */
  function Insert<T(!new)>(x: T, s: seq<T>, le: (T, T) -> bool): (r: seq<T>)
    requires TotalPreorder(le)
    requires Sorted(s, le)
    ensures multiset(r) == multiset(s) + multiset{x}
    ensures Sorted(r, le)
  {
    if |s| == 0 then [x]
    else if le(x, s[0]) then
      LeadBelowSorted(x, s, le);
      [x] + s
    else
      var tail := Insert(x, s[1..], le);
      assert s == [s[0]] + s[1..];
      LeadBelowAll(s[0], tail, s[1..], x, le);
      [s[0]] + tail
  }

  /** An element `le` the head of a sorted sequence can lead it. */
  lemma LeadBelowSorted<T(!new)>(x: T, s: seq<T>, le: (T, T) -> bool)
    requires TotalPreorder(le)
    requires Sorted(s, le) && |s| > 0 && le(x, s[0])
    ensures Sorted([x] + s, le)
  {
  }

  /** `h`, which is `le` every element of `rest` and `le` `x`, can lead any
      sorted arrangement `tail` of `rest` and `x`. */
  lemma LeadBelowAll<T(!new)>(h: T, tail: seq<T>, rest: seq<T>, x: T, le: (T, T) -> bool)
    requires TotalPreorder(le)
    requires Sorted(tail, le) && Sorted([h] + rest, le) && !le(x, h)
    requires multiset(tail) == multiset(rest) + multiset{x}
    ensures Sorted([h] + tail, le)
  {
    forall k | 0 <= k < |tail| ensures le(h, tail[k]) {
      assert tail[k] in multiset(tail);
      if tail[k] == x {
        assert le(x, h) || le(h, x);
      } else {
        assert tail[k] in multiset(rest);
        var j :| 0 <= j < |rest| && rest[j] == tail[k];
        assert ([h] + rest)[0] == h && ([h] + rest)[j + 1] == rest[j];
      }
    }
    var r := [h] + tail;
    forall i, j | 0 <= i < j < |r| ensures le(r[i], r[j]) {
      if i > 0 {
        assert r[i] == tail[i - 1] && r[j] == tail[j - 1];
      } else {
        assert r[j] == tail[j - 1];
      }
    }
  }

  /** `order_by(key)`: a sorted permutation of `s`. */
  function SortBy<T(!new)>(s: seq<T>, le: (T, T) -> bool): (r: seq<T>)
    requires TotalPreorder(le)
    ensures multiset(r) == multiset(s)
    ensures Sorted(r, le)
  {
    if |s| == 0 then []
    else
      assert s == [s[0]] + s[1..];
      Insert(s[0], SortBy(s[1..], le), le)
  }

  /** `filter(...)`: the elements of `s` that satisfy `keep`, in their order. */
  function Filter<T(!new)>(s: seq<T>, keep: T -> bool): (r: seq<T>)
    ensures |r| <= |s|
    ensures forall x :: multiset(r)[x] == if keep(x) then multiset(s)[x] else 0
    ensures forall x :: x in r <==> x in s && keep(x)
  {
    if |s| == 0 then []
    else
      assert s == [s[0]] + s[1..];
      if keep(s[0]) then [s[0]] + Filter(s[1..], keep) else Filter(s[1..], keep)
  }

  /** No two positions of `s` carry the same key. */
  ghost predicate UniqueKeys<T, K>(s: seq<T>, key: T -> K)
  {
    forall i, j :: 0 <= i < j < |s| ==> key(s[i]) != key(s[j])
  }

  /** Filtering keeps distinct keys distinct. */
  lemma {:induction false} FilterUnique<T(!new), K>(s: seq<T>, keep: T -> bool, key: T -> K)
    ensures UniqueKeys(s, key) ==> UniqueKeys(Filter(s, keep), key)
    decreases |s|
  {
    if |s| > 0 && UniqueKeys(s, key) {
      var tail := s[1..];
      UniqueTail(s, key);
      FilterUnique(tail, keep, key);
      var rest := Filter(tail, keep);
      if keep(s[0]) {
        assert Filter(s, keep) == [s[0]] + rest;
        forall k | 0 <= k < |rest| ensures key(rest[k]) != key(s[0]) {
          KeyFromTail(s, key, rest[k]);
        }
        UniqueCons(s[0], rest, key);
      } else {
        assert Filter(s, keep) == rest;
      }
    }
  }

  lemma UniqueTail<T, K>(s: seq<T>, key: T -> K)
    requires |s| > 0 && UniqueKeys(s, key)
    ensures UniqueKeys(s[1..], key)
  {
    var tail := s[1..];
    forall i, j | 0 <= i < j < |tail| ensures key(tail[i]) != key(tail[j]) {
      assert tail[i] == s[i + 1] && tail[j] == s[j + 1];
    }
  }

  /** An element of the tail does not share the head's key. */
  lemma KeyFromTail<T, K>(s: seq<T>, key: T -> K, x: T)
    requires |s| > 0 && UniqueKeys(s, key) && x in s[1..]
    ensures key(x) != key(s[0])
  {
    var j :| 0 <= j < |s| - 1 && s[1..][j] == x;
    assert s[j + 1] == x;
  }

  lemma UniqueCons<T, K>(h: T, rest: seq<T>, key: T -> K)
    requires UniqueKeys(rest, key)
    requires forall k :: 0 <= k < |rest| ==> key(rest[k]) != key(h)
    ensures UniqueKeys([h] + rest, key)
  {
    var r := [h] + rest;
    forall i, j | 0 <= i < j < |r| ensures key(r[i]) != key(r[j]) {
      if i > 0 { assert r[i] == rest[i - 1]; }
      assert r[j] == rest[j - 1];
    }
  }
}
