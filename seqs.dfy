/** Sequence helpers behind the repositories' derived queries: filtering and ordering. */
module Seqs {
  import opened Wrappers

  /** Keeps the elements satisfying `p`, in their original order. */
  function Filter<T(!new)>(s: seq<T>, p: T -> bool): (r: seq<T>)
    ensures |r| <= |s|
    ensures forall x :: multiset(r)[x] == if p(x) then multiset(s)[x] else 0
    ensures forall x :: x in r <==> x in s && p(x)
  {
    if s == [] then []
    else
      var init := Filter(s[..|s| - 1], p);
      var last := s[|s| - 1];
      assert s == s[..|s| - 1] + [last];
      if p(last) then init + [last] else init
  }

  lemma {:induction false} FilterAppend<T(!new)>(a: seq<T>, b: seq<T>, p: T -> bool)
    ensures Filter(a + b, p) == Filter(a, p) + Filter(b, p)
    decreases |b|
  {
    if b == [] {
      assert a + b == a;
    } else {
      var b' := b[..|b| - 1];
      assert (a + b)[..|a + b| - 1] == a + b';
      FilterAppend(a, b', p);
    }
  }

  /** Filtering keeps every element when all of them pass. */
  lemma {:induction false} FilterAll<T(!new)>(s: seq<T>, p: T -> bool)
    requires forall i :: 0 <= i < |s| ==> p(s[i])
    ensures Filter(s, p) == s
  {
    if s != [] {
      FilterAll(s[..|s| - 1], p);
      assert s[..|s| - 1] + [s[|s| - 1]] == s;
    }
  }

  /** Filtering drops every element when none of them passes. */
  lemma {:induction false} FilterNone<T(!new)>(s: seq<T>, p: T -> bool)
    requires forall i :: 0 <= i < |s| ==> !p(s[i])
    ensures Filter(s, p) == []
  {
    if s != [] {
      FilterNone(s[..|s| - 1], p);
    }
  }

  /** No two positions of `s` carry the same key. */
  ghost predicate KeysDistinct<T(!new), K>(s: seq<T>, key: T -> K)
  {
    forall i, j :: 0 <= i < j < |s| ==> key(s[i]) != key(s[j])
  }

  /** Elements with pairwise distinct keys keep distinct keys after filtering. */
  lemma {:induction false} FilterKeepsKeysDistinct<T(!new), K>(s: seq<T>, p: T -> bool, key: T -> K)
    requires KeysDistinct(s, key)
    ensures KeysDistinct(Filter(s, p), key)
  {
    if s != [] {
      var init := s[..|s| - 1];
      var last := s[|s| - 1];
      FilterKeepsKeysDistinct(init, p, key);
      var fi := Filter(init, p);
      forall i | 0 <= i < |fi| ensures key(fi[i]) != key(last) {
        assert fi[i] in init;
        var k :| 0 <= k < |init| && init[k] == fi[i];
        assert s[k] == fi[i];
      }
      var r := Filter(s, p);
      assert r == if p(last) then fi + [last] else fi;
      forall i, j | 0 <= i < j < |r| ensures key(r[i]) != key(r[j]) {
        if j == |fi| {
          assert r[i] == fi[i] && r[j] == last;
        } else {
          assert r[i] == fi[i] && r[j] == fi[j];
        }
      }
    }
  }

  /** Every element carries a key no smaller than the keys after it. */
  ghost predicate SortedDesc<T(!new)>(s: seq<T>, key: T -> int)
  {
    forall i, j :: 0 <= i < j < |s| ==> key(s[i]) >= key(s[j])
  }

  /** A key bounding every element of `s` and `x` bounds every element of a permutation of them. */
  lemma KeyBoundKept<T(!new)>(y: T, x: T, s: seq<T>, r: seq<T>, key: T -> int)
    requires multiset(r) == multiset(s) + multiset{x}
    requires key(y) >= key(x)
    requires forall k :: 0 <= k < |s| ==> key(y) >= key(s[k])
    ensures forall k :: 0 <= k < |r| ==> key(y) >= key(r[k])
  {
    forall k | 0 <= k < |r| ensures key(y) >= key(r[k]) {
      assert r[k] in multiset(r);
      if r[k] != x {
        assert r[k] in multiset(s);
        var j :| 0 <= j < |s| && s[j] == r[k];
      }
    }
  }

  /** Inserts `x` into a descending sequence, before the first element with a smaller key. */
  function InsertDesc<T(!new)>(x: T, s: seq<T>, key: T -> int): (r: seq<T>)
    requires SortedDesc(s, key)
    ensures SortedDesc(r, key)
    ensures multiset(r) == multiset(s) + multiset{x}
    ensures |r| == |s| + 1
  {
    if s == [] then [x]
    else if key(s[0]) >= key(x) then
      var rest := InsertDesc(x, s[1..], key);
      assert s == [s[0]] + s[1..];
      KeyBoundKept(s[0], x, s[1..], rest, key);
      [s[0]] + rest
    else
      [x] + s
  }

  /** Orders `s` by non-increasing key (an insertion sort); the result is a permutation of `s`. */
  function SortDesc<T(!new)>(s: seq<T>, key: T -> int): (r: seq<T>)
    ensures SortedDesc(r, key)
    ensures multiset(r) == multiset(s)
    ensures |r| == |s|
  {
    if s == [] then []
    else
      assert s == [s[0]] + s[1..];
      InsertDesc(s[0], SortDesc(s[1..], key), key)
  }

  /** Sequences with the same elements have equally large filters. */
  lemma FilterCountPermutation<T(!new)>(a: seq<T>, b: seq<T>, p: T -> bool)
    requires multiset(a) == multiset(b)
    ensures multiset(Filter(a, p)) == multiset(Filter(b, p))
    ensures |Filter(a, p)| == |Filter(b, p)|
  {
    var fa, fb := Filter(a, p), Filter(b, p);
    assert forall x :: multiset(fa)[x] == multiset(fb)[x];
    assert multiset(fa) == multiset(fb);
    assert |multiset(fa)| == |fa|;
    assert |multiset(fb)| == |fb|;
  }

  /** Filtering twice keeps what the stricter filter keeps. */
  lemma {:induction false} FilterTwice<T(!new)>(s: seq<T>, p: T -> bool, q: T -> bool)
    requires forall x :: q(x) ==> p(x)
    ensures Filter(Filter(s, p), q) == Filter(s, q)
  {
    if s != [] {
      var init, last := s[..|s| - 1], s[|s| - 1];
      FilterTwice(init, p, q);
      if p(last) {
        FilterAppend(Filter(init, p), [last], q);
      }
    }
  }

  /** `s` without its element at position `k`. */
  function RemoveAt<T>(s: seq<T>, k: nat): (r: seq<T>)
    requires k < |s|
    ensures |r| == |s| - 1
    ensures forall i :: 0 <= i < |r| ==> r[i] == if i < k then s[i] else s[i + 1]
    ensures multiset(r) == multiset(s) - multiset{s[k]}
  {
    assert s == s[..k] + [s[k]] + s[k + 1..];
    s[..k] + s[k + 1..]
  }

  /** The position of the first element satisfying `p`, if any. */
  function FirstIndex<T>(s: seq<T>, p: T -> bool): (r: Option<nat>)
    ensures r.Some? ==> r.value < |s| && p(s[r.value])
    ensures r.None? <==> forall i :: 0 <= i < |s| ==> !p(s[i])
  {
    if s == [] then None
    else if p(s[0]) then Some(0)
    else match FirstIndex(s[1..], p)
      case None => None
      case Some(i) => Some(i + 1)
  }
}
