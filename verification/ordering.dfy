/**
 * The ordering layer. `SinqOrderedSequence` is a `SinqSequence` that carries
 * a chain of comparators and overrides `generate()` to sort a snapshot of
 * its wrapped sequence; it also overrides `orderBy`, `orderByDescending`,
 * `thenBy`, `thenByDescending` and `whereTrue`, which read the wrapped
 * sequence rather than the sorted enumeration. The two classes are modelled as the two variants of `Sinq`.
 */
module Ordering {
  import opened Seqs

  /**
   * One comparator of the chain. Comparators only arise from `orderBy` and
   * `thenBy` (`{ key($0) < key($1) }`) and from their descending forms
   * (`{ key($0) > key($1) }`).
   */
  datatype SortKey<!T> = Ascending(key: T -> int) | Descending(key: T -> int)

  /** Whether the comparator places `a` strictly before `b`. */
  predicate Precedes<T>(c: SortKey<T>, a: T, b: T) {
    match c
    case Ascending(key) => key(a) < key(b)
    case Descending(key) => key(a) > key(b)
  }

  /**
   * The closure handed to `sort`: the first comparator that separates `a`
   * and `b` (in either direction) decides; if none does, `a` is not before `b`.
   */
  predicate Before<T>(chain: seq<SortKey<T>>, a: T, b: T)
    decreases |chain|
  {
    if |chain| == 0 then false
    else if Precedes(chain[0], a, b) then true
    else if Precedes(chain[0], b, a) then false
    else Before(chain[1..], a, b)
  }

  /** No comparator of the chain separates `a` and `b`. */
  ghost predicate Tied<T>(chain: seq<SortKey<T>>, a: T, b: T) {
    forall i :: 0 <= i < |chain| ==> chain[i].key(a) == chain[i].key(b)
  }

  /** Two elements are either ordered one way, or the other, or tied. */
  lemma {:induction false} BeforeTrichotomy<T>(chain: seq<SortKey<T>>, a: T, b: T)
    ensures Before(chain, a, b) ==> !Before(chain, b, a)
    ensures !Before(chain, a, b) && !Before(chain, b, a) <==> Tied(chain, a, b)
    decreases |chain|
  {
    if |chain| > 0 {
      BeforeTrichotomy(chain[1..], a, b);
      assert forall i :: 1 <= i < |chain| ==> chain[i] == chain[1..][i - 1];
    }
  }

  /** The composite ordering is transitive. */
  lemma {:induction false} BeforeTransitive<T>(chain: seq<SortKey<T>>, a: T, b: T, c: T)
    requires Before(chain, a, b) && Before(chain, b, c)
    ensures Before(chain, a, c)
    decreases |chain|
  {
    if |chain| > 0 && !Precedes(chain[0], a, b) && !Precedes(chain[0], b, c) {
      BeforeTransitive(chain[1..], a, b, c);
    }
  }

  /** Not-before is transitive too (the composite ordering is a strict weak order). */
  lemma {:induction false} NotBeforeTransitive<T>(chain: seq<SortKey<T>>, a: T, b: T, c: T)
    requires !Before(chain, a, b) && !Before(chain, b, c)
    ensures !Before(chain, a, c)
    decreases |chain|
  {
    if |chain| > 0 && !Precedes(chain[0], b, a) && !Precedes(chain[0], c, b) {
      NotBeforeTransitive(chain[1..], a, b, c);
    }
  }

  /** Appending comparators only breaks ties left by the chain. */
  lemma {:induction false} BeforeAppend<T>(first: seq<SortKey<T>>, next: seq<SortKey<T>>, a: T, b: T)
    ensures Before(first + next, a, b) <==> Before(first, a, b) || (Tied(first, a, b) && Before(next, a, b))
    decreases |first|
  {
    BeforeTrichotomy(first, a, b);
    if |first| == 0 {
      assert first + next == next;
    } else {
      assert (first + next)[0] == first[0];
      assert (first + next)[1..] == first[1..] + next;
      BeforeAppend(first[1..], next, a, b);
      BeforeTrichotomy(first[1..], a, b);
    }
  }

  /** No later element is strictly before an earlier one. */
  ghost predicate Sorted<T>(chain: seq<SortKey<T>>, s: seq<T>) {
    forall i, j :: 0 <= i < j < |s| ==> !Before(chain, s[j], s[i])
  }

  /** The tail of a sorted sequence is sorted. */
  lemma SortedTail<T>(chain: seq<SortKey<T>>, s: seq<T>)
    requires |s| > 0 && Sorted(chain, s)
    ensures Sorted(chain, s[1..])
  {
    assert forall i :: 0 <= i < |s[1..]| ==> s[1..][i] == s[i + 1];
  }

  /** Prefixing a sorted sequence with an element nothing is before keeps it sorted. */
  lemma SortedCons<T>(chain: seq<SortKey<T>>, y: T, s: seq<T>)
    requires Sorted(chain, s)
    requires forall k :: 0 <= k < |s| ==> !Before(chain, s[k], y)
    ensures Sorted(chain, [y] + s)
  {
    var r := [y] + s;
    forall i, j | 0 <= i < j < |r|
      ensures !Before(chain, r[j], r[i])
    {
      assert r[j] == s[j - 1];
      if i > 0 {
        assert r[i] == s[i - 1];
      }
    }
  }

  /**
   * When the head of a sorted `s` is before `x`, nothing in a permutation of
   * `x` and the tail of `s` is before that head.
   */
  lemma NoneBeforeHead<T>(chain: seq<SortKey<T>>, x: T, s: seq<T>, rest: seq<T>)
    requires |s| > 0 && Sorted(chain, s) && Before(chain, s[0], x)
    requires multiset(rest) == multiset(s[1..]) + multiset{x}
    ensures forall k :: 0 <= k < |rest| ==> !Before(chain, rest[k], s[0])
  {
    forall k | 0 <= k < |rest|
      ensures !Before(chain, rest[k], s[0])
    {
      assert rest[k] in multiset(rest);
      if rest[k] == x {
        BeforeTrichotomy(chain, s[0], x);
      } else {
        assert rest[k] in multiset(s[1..]);
        var m :| 0 <= m < |s[1..]| && s[1..][m] == rest[k];
        assert s[m + 1] == rest[k];
      }
    }
  }

  /** Insertion of `x` into a sorted sequence, ahead of the first element it is not after. */
  function Insert<T>(chain: seq<SortKey<T>>, x: T, s: seq<T>): (r: seq<T>)
    requires Sorted(chain, s)
    ensures multiset(r) == multiset(s) + multiset{x}
    ensures Sorted(chain, r)
    decreases |s|
  {
    if |s| == 0 then [x]
    else if Before(chain, s[0], x) then
      SortedTail(chain, s);
      var rest := Insert(chain, x, s[1..]);
      assert s == [s[0]] + s[1..];
      NoneBeforeHead(chain, x, s, rest);
      SortedCons(chain, s[0], rest);
      [s[0]] + rest
    else
      assert forall k :: 0 <= k < |s| ==> !Before(chain, s[k], x) by {
        forall k | 0 <= k < |s|
          ensures !Before(chain, s[k], x)
        {
          if k > 0 {
            NotBeforeTransitive(chain, s[k], s[0], x);
          }
        }
      }
      SortedCons(chain, x, s);
      [x] + s
  }

  /**
   * The sort applied to the snapshot. Swift's library `sort` is outside the
   * model; this insertion sort stands for it, and only what that call
   * promises is claimed: a permutation, sorted under the composite ordering.
   */
  function Sort<T>(chain: seq<SortKey<T>>, s: seq<T>): (r: seq<T>)
    ensures multiset(r) == multiset(s)
    ensures Sorted(chain, r)
    decreases |s|
  {
    if |s| == 0 then []
    else
      assert s == [s[0]] + s[1..];
      Insert(chain, s[0], Sort(chain, s[1..]))
  }

  /** A plain `SinqSequence`, or a `SinqOrderedSequence` with its comparator chain. */
  datatype Sinq<!T> =
    | Sequence(elems: seq<T>)
    | OrderedSequence(source: seq<T>, comparators: seq<SortKey<T>>)

  /** `_seq`: the wrapped sequence, which an ordered sequence holds unsorted. */
  function Wrapped<T>(q: Sinq<T>): seq<T> {
    match q
    case Sequence(e) => e
    case OrderedSequence(src, _) => src
  }

  /**
   * `generate()`: what an enumeration yields. Every operator that goes
   * through `generate()` sees this, so on an ordered sequence it sees the
   * sorted snapshot.
   */
  function Elements<T>(q: Sinq<T>): (r: seq<T>)
    ensures multiset(r) == multiset(Wrapped(q))
    ensures q.OrderedSequence? ==> Sorted(q.comparators, r)
  {
    match q
    case Sequence(e) => e
    case OrderedSequence(src, chain) => Sort(chain, src)
  }

  /**
   * `orderBy(key)`: a fresh chain of one ascending comparator over the
   * wrapped sequence, so an enumeration yields the same elements in
   * ascending key order.
   */
  function OrderBy<T>(q: Sinq<T>, key: T -> int): (r: Sinq<T>)
    ensures multiset(Elements(r)) == multiset(Elements(q))
    ensures forall i, j :: 0 <= i < j < |Elements(r)| ==> key(Elements(r)[i]) <= key(Elements(r)[j])
  {
    var r := OrderedSequence(Wrapped(q), [Ascending(key)]);
    assert forall i, j :: 0 <= i < j < |Elements(r)| ==> key(Elements(r)[i]) <= key(Elements(r)[j]) by {
      forall i, j | 0 <= i < j < |Elements(r)|
        ensures key(Elements(r)[i]) <= key(Elements(r)[j])
      {
        assert !Before([Ascending(key)], Elements(r)[j], Elements(r)[i]);
      }
    }
    r
  }

  /** `orderByDescending(key)`: the same elements, in descending key order. */
  function OrderByDescending<T>(q: Sinq<T>, key: T -> int): (r: Sinq<T>)
    ensures multiset(Elements(r)) == multiset(Elements(q))
    ensures forall i, j :: 0 <= i < j < |Elements(r)| ==> key(Elements(r)[i]) >= key(Elements(r)[j])
  {
    var r := OrderedSequence(Wrapped(q), [Descending(key)]);
    assert forall i, j :: 0 <= i < j < |Elements(r)| ==> key(Elements(r)[i]) >= key(Elements(r)[j]) by {
      forall i, j | 0 <= i < j < |Elements(r)|
        ensures key(Elements(r)[i]) >= key(Elements(r)[j])
      {
        assert !Before([Descending(key)], Elements(r)[j], Elements(r)[i]);
      }
    }
    r
  }

  /**
   * `thenBy(key)`: on an ordered sequence the comparator is appended to the
   * chain, so an enumeration stays sorted by the old chain and is ascending
   * by `key` among elements the old chain leaves tied; on a plain sequence
   * it is `orderBy(key)`, ascending by `key` throughout.
   */
  function ThenBy<T>(q: Sinq<T>, key: T -> int): (r: Sinq<T>)
    ensures multiset(Elements(r)) == multiset(Elements(q))
    ensures q.OrderedSequence? ==> Sorted(q.comparators, Elements(r))
    ensures forall i, j :: 0 <= i < j < |Elements(r)|
              && (q.OrderedSequence? ==> Tied(q.comparators, Elements(r)[i], Elements(r)[j]))
              ==> key(Elements(r)[i]) <= key(Elements(r)[j])
  {
    match q
    case Sequence(_) => OrderBy(q, key)
    case OrderedSequence(src, chain) =>
      var r := OrderedSequence(src, chain + [Ascending(key)]);
      ThenAppended(src, chain, Ascending(key));
      r
  }

  /** `thenByDescending(key)`: as `thenBy`, descending by `key` among tied elements. */
  function ThenByDescending<T>(q: Sinq<T>, key: T -> int): (r: Sinq<T>)
    ensures multiset(Elements(r)) == multiset(Elements(q))
    ensures q.OrderedSequence? ==> Sorted(q.comparators, Elements(r))
    ensures forall i, j :: 0 <= i < j < |Elements(r)|
              && (q.OrderedSequence? ==> Tied(q.comparators, Elements(r)[i], Elements(r)[j]))
              ==> key(Elements(r)[i]) >= key(Elements(r)[j])
  {
    match q
    case Sequence(_) => OrderByDescending(q, key)
    case OrderedSequence(src, chain) =>
      var r := OrderedSequence(src, chain + [Descending(key)]);
      ThenAppended(src, chain, Descending(key));
      r
  }

  /**
   * Sorting under a chain with one more comparator stays sorted under the
   * shorter chain, and orders elements the shorter chain ties by the new
   * comparator.
   */
  lemma ThenAppended<T>(source: seq<T>, chain: seq<SortKey<T>>, last: SortKey<T>)
    ensures Sorted(chain, Elements(OrderedSequence(source, chain + [last])))
    ensures forall i, j :: 0 <= i < j < |Elements(OrderedSequence(source, chain + [last]))|
              && Tied(chain, Elements(OrderedSequence(source, chain + [last]))[i],
                             Elements(OrderedSequence(source, chain + [last]))[j])
              ==> !Precedes(last, Elements(OrderedSequence(source, chain + [last]))[j],
                                  Elements(OrderedSequence(source, chain + [last]))[i])
  {
    var r := Elements(OrderedSequence(source, chain + [last]));
    forall i, j | 0 <= i < j < |r|
      ensures !Before(chain, r[j], r[i])
      ensures Tied(chain, r[i], r[j]) ==> !Precedes(last, r[j], r[i])
    {
      assert !Before(chain + [last], r[j], r[i]);
      BeforeAppend(chain, [last], r[j], r[i]);
      if Tied(chain, r[i], r[j]) {
        assert Tied(chain, r[j], r[i]);
      }
    }
  }

  /**
   * `whereTrue(predicate)`: on an ordered sequence the filter is pushed under
   * the sort, keeping the chain, so discarded elements are never sorted and
   * the enumeration is a sorted permutation of the filtered enumeration; on
   * a plain sequence it is the filtered enumeration itself.
   */
  function WhereTrue<T>(q: Sinq<T>, p: T -> bool): (r: Sinq<T>)
    ensures multiset(Elements(r)) == multiset(Filter(Elements(q), p))
    ensures q.Sequence? ==> Elements(r) == Filter(Elements(q), p)
    ensures q.OrderedSequence? ==>
              && r.OrderedSequence?
              && r.comparators == q.comparators
              && Sorted(q.comparators, Elements(r))
  {
    FilterPermutation(Wrapped(q), Elements(q), p);
    match q
    case Sequence(e) => Sequence(Filter(e, p))
    case OrderedSequence(src, chain) => OrderedSequence(Filter(src, p), chain)
  }

  /** `orderBy` on an ordered sequence discards the previous chain altogether. */
  lemma OrderByReplacesChain<T>(source: seq<T>, chain: seq<SortKey<T>>, key: T -> int)
    ensures OrderBy(OrderedSequence(source, chain), key) == OrderBy(Sequence(source), key)
    ensures OrderByDescending(OrderedSequence(source, chain), key) == OrderByDescending(Sequence(source), key)
  {
  }

  /** `thenBy` on a plain sequence is `orderBy`. */
  lemma ThenByOnPlainIsOrderBy<T>(s: seq<T>, key: T -> int)
    ensures ThenBy(Sequence(s), key) == OrderBy(Sequence(s), key)
    ensures ThenByDescending(Sequence(s), key) == OrderByDescending(Sequence(s), key)
  {
  }

  /**
   * `reduce(initial, combine)` as written: it folds `_seq`, which on an
   * ordered sequence is the unsorted source rather than the enumeration.
   */
  function ReduceSeededAsWritten<A, T>(q: Sinq<T>, initial: A, combine: (A, T) -> A): A {
    FoldLeft(combine, initial, Wrapped(q))
  }

  /** `reduce(initial, combine)` over the enumeration, as the seedless `reduce` and the other operators that do not rebuild an ordered sequence read it. */
  function ReduceSeeded<A, T>(q: Sinq<T>, initial: A, combine: (A, T) -> A): A {
    FoldLeft(combine, initial, Elements(q))
  }

  /** The corrected seeded reduce, collecting into a list, reproduces the enumeration. */
  lemma CollectingReduceEnumerates<T>(q: Sinq<T>)
    ensures ReduceSeeded(q, [], Collect<T>()) == Elements(q)
  {
    FoldCollects([], Elements(q));
  }

  /**
   * As written, collecting `[2, 1]` ordered ascending with a seeded reduce
   * yields `[2, 1]`, while enumerating the same sequence yields `[1, 2]`.
   */
  lemma SeededReduceSeesUnsortedSource()
    ensures var q := OrderedSequence([2, 1], [Ascending((x: int) => x)]);
            && Elements(q) == [1, 2]
            && ReduceSeededAsWritten(q, [], Collect<int>()) == [2, 1]
            && ReduceSeededAsWritten(q, [], Collect<int>()) != ReduceSeeded(q, [], Collect<int>())
  {
    var q := OrderedSequence([2, 1], [Ascending((x: int) => x)]);
    FoldCollects([], [2, 1]);
    assert Before([Ascending((x: int) => x)], 1, 2);
    assert Sort(q.comparators, [1]) == [1];
    assert Elements(q) == [1, 2];
    CollectingReduceEnumerates(q);
  }
}
