/**
 * Sequence vocabulary shared by every operator module: filtering, mapping,
 * flattening, left folds, key sets and the subsequence relation.
 */
module Seqs {

  /** `a` can be obtained from `b` by deleting elements, keeping the rest in order. */
  ghost predicate IsSubsequence<T>(a: seq<T>, b: seq<T>)
    decreases |b|
  {
    || |a| == 0
    || (&& |b| > 0
        && ((a[0] == b[0] && IsSubsequence(a[1..], b[1..])) || IsSubsequence(a, b[1..])))
  }

  /** Every element of a subsequence occurs in the enclosing sequence. */
  lemma {:induction false} SubsequenceMembers<T>(a: seq<T>, b: seq<T>)
    requires IsSubsequence(a, b)
    ensures forall x :: x in a ==> x in b
    decreases |b|
  {
    if |a| > 0 {
      if a[0] == b[0] && IsSubsequence(a[1..], b[1..]) {
        SubsequenceMembers(a[1..], b[1..]);
        assert forall x :: x in a ==> x == a[0] || x in a[1..];
      } else {
        SubsequenceMembers(a, b[1..]);
      }
    }
  }

  /** The elements of `s` satisfying `p`, in source order. */
  function Filter<T>(s: seq<T>, p: T -> bool): (r: seq<T>)
    ensures |r| <= |s|
    ensures forall i :: 0 <= i < |r| ==> p(r[i])
    decreases |s|
  {
    if |s| == 0 then []
    else (if p(s[0]) then [s[0]] else []) + Filter(s[1..], p)
  }

  /** A filter keeps every satisfying occurrence and no other. */
  lemma {:induction false} FilterCount<T>(s: seq<T>, p: T -> bool, x: T)
    ensures multiset(Filter(s, p))[x] == if p(x) then multiset(s)[x] else 0
    decreases |s|
  {
    if |s| > 0 {
      FilterCount(s[1..], p, x);
      assert s == [s[0]] + s[1..];
      assert multiset(s)[x] == multiset([s[0]])[x] + multiset(s[1..])[x];
      var head := if p(s[0]) then [s[0]] else [];
      assert multiset(Filter(s, p))[x] == multiset(head)[x] + multiset(Filter(s[1..], p))[x];
    }
  }

  lemma FilterMultiset<T>(s: seq<T>, p: T -> bool)
    ensures forall x :: multiset(Filter(s, p))[x] == if p(x) then multiset(s)[x] else 0
  {
    forall x
      ensures multiset(Filter(s, p))[x] == if p(x) then multiset(s)[x] else 0
    {
      FilterCount(s, p, x);
    }
  }

  /** Filtering permutations of each other yields permutations of each other. */
  lemma FilterPermutation<T>(a: seq<T>, b: seq<T>, p: T -> bool)
    requires multiset(a) == multiset(b)
    ensures multiset(Filter(a, p)) == multiset(Filter(b, p))
  {
    forall x
      ensures multiset(Filter(a, p))[x] == multiset(Filter(b, p))[x]
    {
      FilterCount(a, p, x);
      FilterCount(b, p, x);
      assert multiset(a)[x] == multiset(b)[x];
    }
    MultisetExt(multiset(Filter(a, p)), multiset(Filter(b, p)));
  }

  /** Concatenation is associative (stated once, so that callers need not re-derive it by extensionality). */
  lemma AppendAssoc<T>(a: seq<T>, b: seq<T>, c: seq<T>)
    ensures a + (b + c) == (a + b) + c
  {
  }

  lemma MultisetExt<T>(a: multiset<T>, b: multiset<T>)
    requires forall x :: a[x] == b[x]
    ensures a == b
  {
  }

  /** A filter deletes elements but never reorders them. */
  lemma {:induction false} FilterSubsequence<T>(s: seq<T>, p: T -> bool)
    ensures IsSubsequence(Filter(s, p), s)
    decreases |s|
  {
    if |s| > 0 {
      var rest := Filter(s[1..], p);
      FilterSubsequence(s[1..], p);
      if p(s[0]) {
        assert ([s[0]] + rest)[1..] == rest;
      } else {
        assert Filter(s, p) == rest;
      }
    }
  }

  /** Filtering distributes over concatenation. */
  lemma {:induction false} FilterAppend<T>(a: seq<T>, b: seq<T>, p: T -> bool)
    ensures Filter(a + b, p) == Filter(a, p) + Filter(b, p)
    decreases |a|
  {
    if |a| > 0 {
      assert (a + b)[0] == a[0];
      assert (a + b)[1..] == a[1..] + b;
      FilterAppend(a[1..], b, p);
    } else {
      assert a + b == b;
    }
  }

  /** Nothing satisfies `p` exactly when the filter is empty. */
  lemma {:induction false} FilterEmpty<T>(s: seq<T>, p: T -> bool)
    ensures Filter(s, p) == [] <==> forall i :: 0 <= i < |s| ==> !p(s[i])
    decreases |s|
  {
    if |s| > 0 {
      FilterEmpty(s[1..], p);
      assert forall i :: 1 <= i < |s| ==> s[i] == s[1..][i - 1];
    }
  }

  /** `p` and `q` complementary: their filters split `s`. */
  lemma {:induction false} FilterPartition<T>(s: seq<T>, p: T -> bool, q: T -> bool)
    requires forall x :: q(x) == !p(x)
    ensures |Filter(s, p)| + |Filter(s, q)| == |s|
    decreases |s|
  {
    if |s| > 0 {
      FilterPartition(s[1..], p, q);
    }
  }

  /** A filter whose predicate holds everywhere keeps everything. */
  lemma {:induction false} FilterAll<T>(s: seq<T>, p: T -> bool)
    requires forall i :: 0 <= i < |s| ==> p(s[i])
    ensures Filter(s, p) == s
    decreases |s|
  {
    if |s| > 0 {
      FilterAll(s[1..], p);
      assert s == [s[0]] + s[1..];
    }
  }

  /**
   * Mapped filters by two disjoint predicates together hold the same
   * elements as the mapped filter by their disjunction.
   */
  lemma {:induction false} MappedFiltersJoin<T, V>(s: seq<T>, p: T -> bool, q: T -> bool, both: T -> bool, f: T -> V)
    requires forall x :: both(x) == (p(x) || q(x))
    requires forall x :: !(p(x) && q(x))
    ensures multiset(Map(Filter(s, p), f)) + multiset(Map(Filter(s, q), f)) == multiset(Map(Filter(s, both), f))
    decreases |s|
  {
    if |s| > 0 {
      var x := s[0];
      var fp, fq, fb := Filter(s[1..], p), Filter(s[1..], q), Filter(s[1..], both);
      MappedFiltersJoin(s[1..], p, q, both, f);
      if p(x) {
        assert Filter(s, p) == [x] + fp;
        assert Filter(s, q) == fq;
        assert Filter(s, both) == [x] + fb;
        MapAppend([x], fp, f);
        MapAppend([x], fb, f);
      } else if q(x) {
        assert Filter(s, p) == fp;
        assert Filter(s, q) == [x] + fq;
        assert Filter(s, both) == [x] + fb;
        MapAppend([x], fq, f);
        MapAppend([x], fb, f);
      } else {
        assert Filter(s, p) == fp;
        assert Filter(s, q) == fq;
        assert Filter(s, both) == fb;
      }
    }
  }

  /** No two elements (earlier first) are related by `eq`. */
  ghost predicate NoTwoEqual<T>(s: seq<T>, eq: (T, T) -> bool) {
    forall i, j :: 0 <= i < j < |s| ==> !eq(s[i], s[j])
  }

  /** Filtering never brings two `eq`-related elements together. */
  lemma {:induction false} FilterKeepsNoTwoEqual<T>(s: seq<T>, p: T -> bool, eq: (T, T) -> bool)
    requires NoTwoEqual(s, eq)
    ensures NoTwoEqual(Filter(s, p), eq)
    decreases |s|
  {
    if |s| > 0 {
      var rest := Filter(s[1..], p);
      FilterKeepsNoTwoEqual(s[1..], p, eq);
      if p(s[0]) {
        FilterSubsequence(s[1..], p);
        SubsequenceMembers(rest, s[1..]);
        forall j | 0 <= j < |rest|
          ensures !eq(s[0], rest[j])
        {
          assert rest[j] in s[1..];
          var k :| 0 <= k < |s[1..]| && s[1..][k] == rest[j];
          assert s[k + 1] == rest[j];
        }
        var r := [s[0]] + rest;
        forall i, j | 0 <= i < j < |r|
          ensures !eq(r[i], r[j])
        {
          if i > 0 {
            assert r[i] == rest[i - 1] && r[j] == rest[j - 1];
          }
        }
      }
    }
  }

  /** The predicate "the key of x is k". */
  function KeyIs<T, K(==)>(key: T -> K, k: K): T -> bool {
    x => key(x) == k
  }

  /** The predicate "the key of x lies in ks". */
  function KeyIn<T, K(==)>(key: T -> K, ks: set<K>): T -> bool {
    x => key(x) in ks
  }

  /** The predicate "the key of x lies outside ks". */
  function KeyNotIn<T, K(==)>(key: T -> K, ks: set<K>): T -> bool {
    x => key(x) !in ks
  }

  /** The set of keys occurring in `s`. */
  ghost function KeysOf<T, K>(s: seq<T>, key: T -> K): set<K> {
    set i | 0 <= i < |s| :: key(s[i])
  }

  lemma KeysOfAppend<T, K>(a: seq<T>, b: seq<T>, key: T -> K)
    ensures KeysOf(a + b, key) == KeysOf(a, key) + KeysOf(b, key)
  {
    var ab := a + b;
    forall k | k in KeysOf(ab, key)
      ensures k in KeysOf(a, key) + KeysOf(b, key)
    {
      var i :| 0 <= i < |ab| && key(ab[i]) == k;
      if i >= |a| {
        assert b[i - |a|] == ab[i];
      }
    }
    forall k | k in KeysOf(a, key)
      ensures k in KeysOf(ab, key)
    {
      var i :| 0 <= i < |a| && key(a[i]) == k;
      assert ab[i] == a[i];
    }
    forall k | k in KeysOf(b, key)
      ensures k in KeysOf(ab, key)
    {
      var i :| 0 <= i < |b| && key(b[i]) == k;
      assert ab[|a| + i] == b[i];
    }
  }

  /** No two elements of `s` share a key. */
  ghost predicate KeysDistinct<T, K>(s: seq<T>, key: T -> K) {
    forall i, j :: 0 <= i < j < |s| ==> key(s[i]) != key(s[j])
  }
  /** Joining two key-distinct sequences with disjoint key sets keeps the keys distinct. */
  lemma KeysDistinctAppend<T, K>(a: seq<T>, b: seq<T>, key: T -> K)
    requires KeysDistinct(a, key) && KeysDistinct(b, key)
    requires KeysOf(a, key) !! KeysOf(b, key)
    ensures KeysDistinct(a + b, key)
  {
    var ab := a + b;
    forall i, j | 0 <= i < j < |ab|
      ensures key(ab[i]) != key(ab[j])
    {
      if j < |a| {
        assert ab[i] == a[i] && ab[j] == a[j];
      } else if i >= |a| {
        assert ab[i] == b[i - |a|] && ab[j] == b[j - |a|];
      } else {
        assert ab[i] == a[i] && ab[j] == b[j - |a|];
        assert key(a[i]) in KeysOf(a, key);
        assert key(b[j - |a|]) in KeysOf(b, key);
      }
    }
  }


  /** `f` applied to every element, in order. */
  function Map<T, R>(s: seq<T>, f: T -> R): (r: seq<R>)
    ensures |r| == |s|
    ensures forall i :: 0 <= i < |s| ==> r[i] == f(s[i])
    decreases |s|
  {
    if |s| == 0 then [] else [f(s[0])] + Map(s[1..], f)
  }

  lemma MapAppend<T, R>(a: seq<T>, b: seq<T>, f: T -> R)
    ensures Map(a + b, f) == Map(a, f) + Map(b, f)
  {
    assert forall i :: 0 <= i < |a| + |b| ==> (a + b)[i] == if i < |a| then a[i] else b[i - |a|];
  }

  /** The concatenation of the parts, in order. */
  function Flatten<T>(parts: seq<seq<T>>): seq<T>
    decreases |parts|
  {
    if |parts| == 0 then [] else parts[0] + Flatten(parts[1..])
  }

  lemma {:induction false} FlattenAppend<T>(a: seq<seq<T>>, b: seq<seq<T>>)
    ensures Flatten(a + b) == Flatten(a) + Flatten(b)
    decreases |a|
  {
    if |a| > 0 {
      assert (a + b)[0] == a[0];
      assert (a + b)[1..] == a[1..] + b;
      FlattenAppend(a[1..], b);
    } else {
      assert a + b == b;
    }
  }

  /** Swift's `reduce(initial, combine)`: a left fold. */
  function FoldLeft<A, T>(f: (A, T) -> A, acc: A, s: seq<T>): A
    decreases |s|
  {
    if |s| == 0 then acc else FoldLeft(f, f(acc, s[0]), s[1..])
  }

  /** Folding a concatenation folds the second part from where the first ended. */
  lemma {:induction false} FoldLeftAppend<A, T>(f: (A, T) -> A, acc: A, a: seq<T>, b: seq<T>)
    ensures FoldLeft(f, acc, a + b) == FoldLeft(f, FoldLeft(f, acc, a), b)
    decreases |a|
  {
    if |a| > 0 {
      assert (a + b)[0] == a[0];
      assert (a + b)[1..] == a[1..] + b;
      FoldLeftAppend(f, f(acc, a[0]), a[1..], b);
    } else {
      assert a + b == b;
    }
  }
  /** The combining function that appends each element to the accumulator. */
  function Collect<T>(): (seq<T>, T) -> seq<T> {
    (acc: seq<T>, x: T) => acc + [x]
  }

  /** Folding with `Collect` appends exactly the folded elements, in order, to the seed. */
  lemma {:induction false} FoldCollects<T>(acc: seq<T>, s: seq<T>)
    ensures FoldLeft(Collect<T>(), acc, s) == acc + s
    decreases |s|
  {
    if |s| > 0 {
      FoldCollects(acc + [s[0]], s[1..]);
      assert acc + [s[0]] + s[1..] == acc + s;
    }
  }

}
