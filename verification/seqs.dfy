/** Generic sequence operations used by the services: JavaScript's `filter`,
    `find` (first match) and the in-place update of the first match. */
module Seqs {
  import opened Wrappers

  /** `Array.prototype.filter`: the elements of `s` satisfying `p`, in their original order. */
  function Filter<T(==,!new)>(s: seq<T>, p: T -> bool): (r: seq<T>)
    ensures |r| <= |s|
    ensures forall x :: x in r <==> x in s && p(x)
  {
    if |s| == 0 then []
    else
      var rest := Filter(s[1..], p);
      assert s == [s[0]] + s[1..];
      if p(s[0]) then [s[0]] + rest else rest
  }

  /** Filtering keeps every passing element as often as it occurs and drops the rest. */
  lemma {:induction false} FilterMultiset<T(!new)>(s: seq<T>, p: T -> bool)
    ensures forall x :: multiset(Filter(s, p))[x] == if p(x) then multiset(s)[x] else 0
  {
    if |s| > 0 {
      FilterMultiset(s[1..], p);
      assert s == [s[0]] + s[1..];
      assert multiset(s) == multiset{s[0]} + multiset(s[1..]);
    }
  }

  /** `a` is obtained from `b` by deleting elements: what remains keeps its order. */
  predicate IsSubsequence<T(==,!new)>(a: seq<T>, b: seq<T>)
    decreases |b|
  {
    |a| == 0 || (|b| > 0 && ((a[0] == b[0] && IsSubsequence(a[1..], b[1..])) || IsSubsequence(a, b[1..])))
  }

  lemma {:induction false} FilterIsSubsequence<T(!new)>(s: seq<T>, p: T -> bool)
    ensures IsSubsequence(Filter(s, p), s)
  {
    if |s| > 0 {
      FilterIsSubsequence(s[1..], p);
    }
  }

  /** Filtering keeps everything exactly when every element already passes. */
  lemma {:induction false} FilterKeepsAll<T(!new)>(s: seq<T>, p: T -> bool)
    ensures Filter(s, p) == s <==> forall i :: 0 <= i < |s| ==> p(s[i])
  {
    if |s| > 0 {
      FilterKeepsAll(s[1..], p);
      if !p(s[0]) {
        assert |Filter(s, p)| <= |s[1..]| < |s|;
      }
    }
  }

  /** Filtering is idempotent. */
  lemma FilterIdempotent<T(!new)>(s: seq<T>, p: T -> bool)
    ensures Filter(Filter(s, p), p) == Filter(s, p)
  {
    var r := Filter(s, p);
    forall i | 0 <= i < |r| ensures p(r[i]) {
      assert r[i] in r;
    }
    FilterKeepsAll(r, p);
  }

  /** The conjunction of two tests. */
  function And<T>(p: T -> bool, q: T -> bool): T -> bool {
    x => p(x) && q(x)
  }

  /** Two filters in a row are one filter by the conjunction. */
  lemma {:induction false} FilterFilter<T(!new)>(s: seq<T>, p: T -> bool, q: T -> bool)
    ensures Filter(Filter(s, p), q) == Filter(s, And(p, q))
  {
    if |s| > 0 {
      FilterFilter(s[1..], p, q);
    }
  }

  /** Filtering a sequence extended at the end extends the result at most by that element. */
  lemma {:induction false} FilterAppend<T(!new)>(s: seq<T>, x: T, p: T -> bool)
    ensures Filter(s + [x], p) == Filter(s, p) + (if p(x) then [x] else [])
  {
    var t := s + [x];
    if |s| > 0 {
      assert t[0] == s[0] && t[1..] == s[1..] + [x];
      FilterAppend(s[1..], x, p);
      var tail := if p(x) then [x] else [];
      if p(s[0]) {
        calc {
          Filter(t, p);
          [s[0]] + Filter(t[1..], p);
          [s[0]] + (Filter(s[1..], p) + tail);
          ([s[0]] + Filter(s[1..], p)) + tail;
        }
      }
    } else {
      assert t == [x] && t[1..] == [];
    }
  }

  /** Position of the first element satisfying `p` (`Array.prototype.find` / `findIndex`). */
  function FirstIndex<T>(s: seq<T>, p: T -> bool): (r: Option<nat>)
    ensures r.None? <==> forall j :: 0 <= j < |s| ==> !p(s[j])
    ensures r.Some? ==> r.value < |s| && p(s[r.value]) && forall j :: 0 <= j < r.value ==> !p(s[j])
  {
    if |s| == 0 then None
    else if p(s[0]) then Some(0)
    else match FirstIndex(s[1..], p)
      case None => None
      case Some(k) => Some(k + 1)
  }

  /** Replace the first element satisfying `p` by its image under `f`; no match leaves `s` alone.
      This is what mutating the object returned by `find` does to the collection. */
  function UpdateFirst<T>(s: seq<T>, p: T -> bool, f: T -> T): (r: seq<T>)
    ensures |r| == |s|
    ensures FirstIndex(s, p).None? ==> r == s
    ensures FirstIndex(s, p).Some? ==>
              var k := FirstIndex(s, p).value;
              r[k] == f(s[k]) && forall j :: 0 <= j < |s| && j != k ==> r[j] == s[j]
  {
    match FirstIndex(s, p)
    case None => s
    case Some(k) => s[k := f(s[k])]
  }

  /** `Array.prototype.map`. */
  function Map<T, U>(s: seq<T>, f: T -> U): (r: seq<U>)
    ensures |r| == |s|
    ensures forall i :: 0 <= i < |s| ==> r[i] == f(s[i])
  {
    seq(|s|, i requires 0 <= i < |s| => f(s[i]))
  }

  /** No two positions of `s` share a key. */
  predicate UniqueBy<T, K(==)>(s: seq<T>, key: T -> K) {
    forall i, j :: 0 <= i < j < |s| ==> key(s[i]) != key(s[j])
  }

  /** Filtering keeps keys unique. */
  lemma {:induction false} FilterKeepsUnique<T(!new), K>(s: seq<T>, p: T -> bool, key: T -> K)
    requires UniqueBy(s, key)
    ensures UniqueBy(Filter(s, p), key)
  {
    if |s| > 0 {
      UniqueTail(s, key);
      FilterKeepsUnique(s[1..], p, key);
      var rest := Filter(s[1..], p);
      if p(s[0]) {
        forall x | x in rest ensures key(x) != key(s[0]) {
          HeadKeyFresh(s, key, x);
        }
        UniqueCons(s[0], rest, key);
      }
    }
  }

  lemma UniqueTail<T, K>(s: seq<T>, key: T -> K)
    requires |s| > 0 && UniqueBy(s, key)
    ensures UniqueBy(s[1..], key)
  {
    forall i, j | 0 <= i < j < |s[1..]| ensures key(s[1..][i]) != key(s[1..][j]) {
      assert s[1..][i] == s[i + 1] && s[1..][j] == s[j + 1];
    }
  }

  lemma HeadKeyFresh<T, K>(s: seq<T>, key: T -> K, x: T)
    requires |s| > 0 && UniqueBy(s, key) && x in s[1..]
    ensures key(x) != key(s[0])
  {
    var k :| 0 <= k < |s[1..]| && s[1..][k] == x;
    assert s[k + 1] == x;
  }

  lemma UniqueCons<T, K>(h: T, rest: seq<T>, key: T -> K)
    requires UniqueBy(rest, key)
    requires forall x :: x in rest ==> key(x) != key(h)
    ensures UniqueBy([h] + rest, key)
  {
    var r := [h] + rest;
    forall i, j | 0 <= i < j < |r| ensures key(r[i]) != key(r[j]) {
      assert r[j] == rest[j - 1];
      if i == 0 {
        assert r[j] in rest;
      } else {
        assert r[i] == rest[i - 1];
      }
    }
  }

  /** Elements that share a key in a sequence with unique keys are the same element. */
  lemma UniqueByMembers<T, K>(s: seq<T>, key: T -> K, x: T, y: T)
    requires UniqueBy(s, key)
    requires x in s && y in s && key(x) == key(y)
    ensures x == y
  {
    var i :| 0 <= i < |s| && s[i] == x;
    var j :| 0 <= j < |s| && s[j] == y;
    assert key(s[i]) == key(s[j]);
  }

  /** Sequences that agree on `p` position by position have the same first match. */
  lemma {:induction false} SameKeysSameFirstIndex<T>(s: seq<T>, t: seq<T>, p: T -> bool)
    requires |s| == |t|
    requires forall j :: 0 <= j < |s| ==> p(s[j]) == p(t[j])
    ensures FirstIndex(s, p) == FirstIndex(t, p)
  {
    if |s| > 0 {
      SameKeysSameFirstIndex(s[1..], t[1..], p);
    }
  }

  /** Filtering by a test no element passes leaves nothing. */
  lemma {:induction false} FilterNoneOf<T(!new)>(s: seq<T>, p: T -> bool)
    requires forall j :: 0 <= j < |s| ==> !p(s[j])
    ensures Filter(s, p) == []
  {
    if |s| > 0 {
      FilterNoneOf(s[1..], p);
    }
  }
}
