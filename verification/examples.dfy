/**
 * Concrete enumerations matching the scenarios the repository's test suite
 * exercises, worked out on the model.
 */
module Examples {
  import opened Optional
  import opened Seqs
  import opened Transforms
  import opened Terminals
  import opened SetOps
  import opened Grouping

  /** The half-open integer range `lo..hi`. */
  function Range(lo: int, hi: int): (r: seq<int>)
    ensures |r| == if lo <= hi then hi - lo else 0
    ensures forall i :: 0 <= i < |r| ==> r[i] == lo + i
    decreases hi - lo
  {
    if lo >= hi then [] else [lo] + Range(lo + 1, hi)
  }

  function IntEq(): (int, int) -> bool {
    (a: int, b: int) => a == b
  }

  lemma ConcatExample()
    ensures Concat([1, 2, 3], [4, 5, 6]) == Range(1, 7)
  {
  }

  lemma FirstLastExample()
    ensures First([42, 1, 2, 3]) == 42 && Last([42, 1, 2, 3]) == 3
    ensures FirstOrNil<int>([]) == None && LastOrNil<int>([]) == None
    ensures FirstOrDefault([], 10) == 10 && LastOrDefault([], 10) == 10
  {
  }

  lemma DistinctRepeatsExample()
    ensures Distinct([1, 2, 1, 2], IntEq()) == [1, 2]
  {
    var eq := IntEq();
    assert Contains([1, 2], 1, eq) && Contains([1, 2], 2, eq) && !Contains([1], 2, eq) && !Contains([], 1, eq);
    assert [1, 2, 1, 2][1..] == [2, 1, 2] && [2, 1, 2][1..] == [1, 2] && [1, 2][1..] == [2] && [2][1..] == [];
    assert [] + [1] == [1] && [1] + [2] == [1, 2];
    assert DistinctFrom([1, 2], [2], eq) == [];
    assert DistinctFrom([1, 2], [1, 2], eq) == [];
    assert DistinctFrom([1], [2, 1, 2], eq) == [2];
    assert DistinctFrom([], [1, 2, 1, 2], eq) == [1, 2];
  }

  lemma DistinctPlainExample()
    ensures Distinct([3, 2, 1], IntEq()) == [3, 2, 1]
  {
    var eq := IntEq();
    assert !Contains([3, 2], 1, eq) && !Contains([3], 2, eq) && !Contains([], 3, eq);
    assert [3, 2] + [1] == [3, 2, 1] && [3] + [2] == [3, 2] && [] + [3] == [3];
    assert DistinctFrom([3, 2], [1], eq) == [1];
    assert DistinctFrom([3], [2, 1], eq) == [2, 1];
    assert DistinctFrom([], [3, 2, 1], eq) == [3, 2, 1];
  }

  lemma ExceptExample()
    ensures Except([3, 2, 1], [1, 2, 1, 2], IntEq()) == [3]
  {
    var eq := IntEq();
    var drop := NotContainedIn([1, 2, 1, 2], eq);
    DistinctPlainExample();
    assert Contains([1, 2, 1, 2], 1, eq);
    assert Contains([1, 2, 1, 2], 2, eq) by { assert [1, 2, 1, 2][1..] == [2, 1, 2]; }
    assert !Contains([1, 2, 1, 2], 3, eq) by {
      assert [1, 2, 1, 2][1..] == [2, 1, 2] && [2, 1, 2][1..] == [1, 2] && [1, 2][1..] == [2];
    }
    assert [3, 2, 1][1..] == [2, 1] && [2, 1][1..] == [1];
    assert Filter([1], drop) == [];
    assert Filter([2, 1], drop) == [];
    assert Filter([3, 2, 1], drop) == [3];
  }

  /** Equal elements are dropped from both inputs, the second contributing only what the first lacks. */
  lemma UnionExample()
    ensures Union([1, 2, 1, 2], [3, 2, 1], IntEq()) == [1, 2, 3]
  {
    DistinctRepeatsExample();
    DistinctPlainExample();
    ExceptExample();
  }

  lemma TakeSkipExample()
    ensures Take(Range(0, 10), 2) == [0, 1]
    ensures Skip(Range(0, 10), 2) == Range(2, 10)
  {
  }

  /** A range splits at any point into the two ranges either side. */
  lemma {:induction false} RangeSplit(lo: int, m: int, hi: int)
    requires lo <= m <= hi
    ensures Range(lo, hi)[..m - lo] == Range(lo, m)
    ensures Range(lo, hi)[m - lo..] == Range(m, hi)
    decreases m - lo
  {
    if lo < m {
      RangeSplit(lo + 1, m, hi);
      assert Range(lo, hi) == [lo] + Range(lo + 1, hi);
      assert Range(lo, m) == [lo] + Range(lo + 1, m);
    }
  }

  /** On an ascending range, `takeWhile(x < m)` stops at m. */
  lemma TakeWhileBelow(lo: int, m: int, hi: int)
    requires lo <= m <= hi
    ensures TakeWhile(Range(lo, hi), x => x < m) == Range(lo, m)
  {
    TakeWhilePrefix(Range(lo, hi), x => x < m, m - lo);
    RangeSplit(lo, m, hi);
  }

  /** On an ascending range, `skipWhile(x < m)` resumes at m. */
  lemma SkipWhileBelow(lo: int, m: int, hi: int)
    requires lo <= m <= hi
    ensures SkipWhile(Range(lo, hi), x => x < m) == Range(m, hi)
  {
    SkipWhileFrom(Range(lo, hi), x => x < m, m - lo);
    RangeSplit(lo, m, hi);
  }

  lemma TakeWhileSkipWhileExample()
    ensures TakeWhile(Range(0, 10), x => x < 6) == Range(0, 6)
    ensures SkipWhile(Range(0, 10), x => x < 5) == Range(5, 10)
  {
    TakeWhileBelow(0, 6, 10);
    SkipWhileBelow(0, 5, 10);
  }

  function Half(y: int): int {
    y / 2
  }

  /** Of the pair 2k, 2k + 1, both have half x when x is k, and neither otherwise. */
  lemma HalfPair(k: int, x: int)
    ensures Filter([2 * k, 2 * k + 1], KeyIs(Half, x)) == if x == k then [2 * k, 2 * k + 1] else []
  {
    var pair := [2 * k, 2 * k + 1];
    assert Half(2 * k) == k && Half(2 * k + 1) == k;
    assert pair[1..] == [2 * k + 1] && [2 * k + 1][1..] == [];
  }

  /** 0..2k + 2 is 0..2k followed by the pair 2k, 2k + 1. */
  lemma RangeTwoMore(k: nat)
    ensures Range(0, 2 * k + 2) == Range(0, 2 * k) + [2 * k, 2 * k + 1]
  {
    var r := Range(0, 2 * k + 2);
    RangeSplit(0, 2 * k, 2 * k + 2);
    assert Range(2 * k, 2 * k + 2) == [2 * k, 2 * k + 1];
    assert r == r[..2 * k] + r[2 * k..];
  }

  /** The members of 0..2n whose half is x: the two of them when x lies below n, none otherwise. */
  lemma {:induction false} HalfClass(n: nat, x: int)
    ensures Filter(Range(0, 2 * n), KeyIs(Half, x)) == if 0 <= x < n then [2 * x, 2 * x + 1] else []
    decreases n
  {
    if n > 0 {
      var k := n - 1;
      HalfClass(k, x);
      RangeTwoMore(k);
      FilterAppend(Range(0, 2 * k), [2 * k, 2 * k + 1], KeyIs(Half, x));
      HalfPair(k, x);
    }
  }

  /**
   * Joining the outer elements a..b, keyed by themselves, with 0..2n keyed
   * by half: each outer element below n meets exactly two inner ones.
   */
  lemma {:induction false} HalfJoinSize(a: int, b: int, n: nat)
    requires 0 <= a <= b
    ensures |InnerJoin(Range(a, b), Range(0, 2 * n), x => x, Half, (x: int, y: int) => (x, y))|
         == 2 * ((if b < n then b else n) - (if a < n then a else n))
    decreases b - a
  {
    if a < b {
      HalfJoinSize(a + 1, b, n);
      HalfClass(n, a);
      assert Range(a, b)[0] == a && Range(a, b)[1..] == Range(a + 1, b);
    }
  }

  /** Joining 0..2n with itself on identity against halving pairs every x below n with 2x and 2x + 1. */
  lemma HalfJoin(n: nat)
    ensures |Join(Range(0, 2 * n), Range(0, 2 * n), x => x, Half, (x: int, y: int) => (x, y))| == 2 * n
    ensures forall p :: p in Join(Range(0, 2 * n), Range(0, 2 * n), x => x, Half, (x: int, y: int) => (x, y)) ==> p.1 / 2 == p.0
  {
    HalfJoinSize(0, 2 * n, n);
    JoinPairsMatch(Range(0, 2 * n), Range(0, 2 * n), x => x, Half);
  }

  /** Joining 0..10 with 0..10 on "outer is half of inner" yields ten pairs, each of them matching. */
  lemma JoinExample()
    ensures |Join(Range(0, 10), Range(0, 10), x => x, Half, (x: int, y: int) => (x, y))| == 10
    ensures forall p :: p in Join(Range(0, 10), Range(0, 10), x => x, Half, (x: int, y: int) => (x, y)) ==> p.1 / 2 == p.0
  {
    HalfJoin(5);
  }

  /** a + (a + 1) + … + (b - 1). */
  function SumRange(a: int, b: int): int
    decreases b - a
  {
    if a >= b then 0 else a + SumRange(a + 1, b)
  }

  /** `selectMany({ 0..$0 })` over a..b yields a + (a + 1) + … + (b - 1) elements. */
  lemma {:induction false} PrefixRangesSize(a: int, b: int, start: int)
    requires 0 <= a <= b
    ensures |SelectManyFrom(Range(a, b), (x: int, i: int) => Range(0, x), (c: int) => c, start)| == SumRange(a, b)
    decreases b - a
  {
    if a < b {
      PrefixRangesSize(a + 1, b, start + 1);
      assert Range(a, b)[0] == a && Range(a, b)[1..] == Range(a + 1, b);
    }
  }

  /** `selectMany({ 0..$0 })` over 0..10 yields 0 + 1 + … + 9 = 45 elements. */
  lemma SelectManyExample()
    ensures |SelectMany(Range(0, 10), (x: int, i: int) => Range(0, x), (c: int) => c)| == 45
  {
    PrefixRangesSize(0, 10, 0);
    assert SumRange(0, 10) == 45;
  }

  lemma ReverseExample()
    ensures Reverse([1, 2, 3, 4, 5]) == [5, 4, 3, 2, 1]
  {
  }

  function Parity(y: int): int {
    y % 2
  }

  /** The even and odd members of 3..5. */
  lemma ParityClassesFrom3()
    ensures Filter([3, 4, 5], KeyIs(Parity, 0)) == [4]
    ensures Filter([3, 4, 5], KeyIs(Parity, 1)) == [3, 5]
  {
    assert Parity(3) == 1 && Parity(4) == 0 && Parity(5) == 1;
    assert [3, 4, 5][1..] == [4, 5] && [4, 5][1..] == [5] && [5][1..] == [];
  }

  /** The even and odd members of 1..5, in enumeration order. */
  lemma ParityClasses()
    ensures Filter([1, 2, 3, 4, 5], KeyIs(Parity, 0)) == [2, 4]
    ensures Filter([1, 2, 3, 4, 5], KeyIs(Parity, 1)) == [1, 3, 5]
  {
    assert Parity(1) == 1 && Parity(2) == 0;
    assert [1, 2, 3, 4, 5][1..] == [2, 3, 4, 5] && [2, 3, 4, 5][1..] == [3, 4, 5];
    ParityClassesFrom3();
  }

  /** Grouping 1..5 by parity against the outer keys 0 and 1 gives groups of two and three. */
  lemma GroupJoinExample()
    ensures GroupJoin([0, 1], Range(1, 6), x => x, Parity, (x: int, g: seq<int>) => (x, |g|)) == [(0, 2), (1, 3)]
  {
    assert Range(1, 6) == [1, 2, 3, 4, 5];
    ParityClasses();
  }
}
