/**
 * The lazy stream transforms of `SinqSequence`: each operator is modelled by
 * what a full enumeration of its result yields, as a function of what the
 * parent enumeration yields.
 */
module Transforms {
  import opened Seqs

  /**
   * `select` with an indexed selector, the generator's position counter
   * starting at `start`; the counter advances once per pulled element.
   */
  function SelectFrom<T, V>(s: seq<T>, selector: (T, int) -> V, start: int): (r: seq<V>)
    ensures |r| == |s|
    ensures forall i :: 0 <= i < |s| ==> r[i] == selector(s[i], start + i)
    decreases |s|
  {
    if |s| == 0 then [] else [selector(s[0], start)] + SelectFrom(s[1..], selector, start + 1)
  }

  /** `select(selector: (T, Int) -> V)`: the counter starts at zero on each enumeration. */
  function Select<T, V>(s: seq<T>, selector: (T, int) -> V): (r: seq<V>)
    ensures |r| == |s|
    ensures forall i :: 0 <= i < |s| ==> r[i] == selector(s[i], i)
  {
    SelectFrom(s, selector, 0)
  }

  /** The indexed selector of `selectMany`, composed with its result selector. */
  function Expand<T, C, R>(selector: (T, int) -> seq<C>, result: C -> R): (T, int) -> seq<R> {
    (x, i) => Map(selector(x, i), result)
  }

  /**
   * `selectMany(selector, result)`: for each outer element, drain the inner
   * sequence `selector(x, counter)` through `result` before pulling the next
   * outer element. The counter advances for every outer element, including
   * those whose inner sequence is empty.
   */
  function SelectManyFrom<T, C, R>(s: seq<T>, selector: (T, int) -> seq<C>, result: C -> R, start: int): seq<R>
    decreases |s|
  {
    if |s| == 0 then []
    else Map(selector(s[0], start), result) + SelectManyFrom(s[1..], selector, result, start + 1)
  }

  /** `selectMany` is the in-order flattening of the indexed `select` of the expanded inner sequences. */
  lemma {:induction false} SelectManyFromIsFlattenedSelect<T, C, R>(
    s: seq<T>, selector: (T, int) -> seq<C>, result: C -> R, start: int)
    ensures SelectManyFrom(s, selector, result, start)
         == Flatten(SelectFrom(s, Expand(selector, result), start))
    decreases |s|
  {
    if |s| > 0 {
      SelectManyFromIsFlattenedSelect(s[1..], selector, result, start + 1);
      var parts := SelectFrom(s, Expand(selector, result), start);
      assert parts[1..] == SelectFrom(s[1..], Expand(selector, result), start + 1);
      assert parts[0] == Map(selector(s[0], start), result);
    }
  }

  /**
   * `selectMany(selector, result)` with the counter starting at zero: the
   * in-order flattening of the indexed `select` of the expanded inner sequences.
   */
  function SelectMany<T, C, R>(s: seq<T>, selector: (T, int) -> seq<C>, result: C -> R): (r: seq<R>)
    ensures r == Flatten(Select(s, Expand(selector, result)))
  {
    SelectManyFromIsFlattenedSelect(s, selector, result, 0);
    SelectManyFrom(s, selector, result, 0)
  }

  /** `concat`: all of `s`, then all of `other`, nothing reordered. */
  function Concat<T>(s: seq<T>, other: seq<T>): (r: seq<T>)
    ensures |r| == |s| + |other|
    ensures forall i :: 0 <= i < |s| ==> r[i] == s[i]
    ensures forall i :: 0 <= i < |other| ==> r[|s| + i] == other[i]
  {
    s + other
  }

  /**
   * `zip(other, result)`: pulls one element from each parent per step and
   * stops as soon as either parent is exhausted.
   */
  function Zip<T, U, R>(s: seq<T>, other: seq<U>, result: (T, U) -> R): (r: seq<R>)
    ensures |r| == if |s| <= |other| then |s| else |other|
    ensures forall i :: 0 <= i < |r| ==> r[i] == result(s[i], other[i])
    decreases |s|
  {
    if |s| == 0 || |other| == 0 then []
    else [result(s[0], other[0])] + Zip(s[1..], other[1..], result)
  }

  /** `reverse`: the materialised source, read backwards. */
  function Reverse<T>(s: seq<T>): (r: seq<T>)
    ensures |r| == |s|
    ensures forall i :: 0 <= i < |s| ==> r[i] == s[|s| - 1 - i]
    decreases |s|
  {
    if |s| == 0 then [] else Reverse(s[1..]) + [s[0]]
  }

  /** Reversing twice restores the source. */
  lemma ReverseInvolution<T>(s: seq<T>)
    ensures Reverse(Reverse(s)) == s
  {
  }

  /**
   * `take(count)`: a counter that stops pulling the parent once `count`
   * elements have been handed out; nothing at all when `count <= 0`.
   */
  function Take<T>(s: seq<T>, count: int): (r: seq<T>)
    ensures count <= 0 ==> r == []
    ensures 0 <= count <= |s| ==> r == s[..count]
    ensures count > |s| ==> r == s
    decreases |s|
  {
    if count <= 0 || |s| == 0 then []
    else [s[0]] + Take(s[1..], count - 1)
  }

  /** `skip(count)`: the first `count` pulls are discarded, the rest passes through. */
  function Skip<T>(s: seq<T>, count: int): (r: seq<T>)
    requires count >= 0
    ensures count <= |s| ==> r == s[count..]
    ensures count > |s| ==> r == []
    decreases |s|
  {
    if count == 0 || |s| == 0 then s
    else Skip(s[1..], count - 1)
  }

  /** `take(n)` followed by `skip(n)` splits the source. */
  lemma TakeSkipSplit<T>(s: seq<T>, n: int)
    requires n >= 0
    ensures Take(s, n) + Skip(s, n) == s
  {
  }

  /** Splitting a concatenation where it was joined recovers both parts. */
  lemma ConcatTakeSkip<T>(a: seq<T>, b: seq<T>)
    ensures Take(Concat(a, b), |a|) == a
    ensures Skip(Concat(a, b), |a|) == b
  {
    assert (a + b)[..|a|] == a;
  }

  /** `takeWhile(p)`: the elements before the first one failing `p`. */
  function TakeWhile<T>(s: seq<T>, p: T -> bool): (r: seq<T>)
    ensures |r| <= |s| && r == s[..|r|]
    ensures forall i :: 0 <= i < |r| ==> p(r[i])
    ensures |r| < |s| ==> !p(s[|r|])
    decreases |s|
  {
    if |s| == 0 || !p(s[0]) then [] else [s[0]] + TakeWhile(s[1..], p)
  }

  /**
   * `skipWhile(p)`: everything from the first element failing `p` onwards;
   * after that element the predicate is no longer consulted.
   */
  function SkipWhile<T>(s: seq<T>, p: T -> bool): (r: seq<T>)
    ensures |r| <= |s| && r == s[|s| - |r|..]
    ensures forall i :: 0 <= i < |s| - |r| ==> p(s[i])
    ensures |r| > 0 ==> !p(r[0])
    decreases |s|
  {
    if |s| == 0 then []
    else if p(s[0]) then SkipWhile(s[1..], p)
    else s
  }

  /** What `takeWhile` keeps and `skipWhile` drops are the same prefix. */
  lemma {:induction false} TakeWhileSkipWhileSplit<T>(s: seq<T>, p: T -> bool)
    ensures TakeWhile(s, p) + SkipWhile(s, p) == s
  {
    var t := TakeWhile(s, p);
    assert forall i :: 0 <= i < |t| ==> p(s[i]) by {
      forall i | 0 <= i < |t| ensures p(s[i]) {
        assert s[i] == t[i];
      }
    }
    SkipWhileFrom(s, p, |t|);
    assert s[..|t|] + s[|t|..] == s;
  }

  /** The longest prefix of passing elements is what `takeWhile` returns. */
  lemma {:induction false} TakeWhilePrefix<T>(s: seq<T>, p: T -> bool, n: nat)
    requires n <= |s|
    requires forall i :: 0 <= i < n ==> p(s[i])
    requires n < |s| ==> !p(s[n])
    ensures TakeWhile(s, p) == s[..n]
    decreases n
  {
    if n > 0 {
      TakeWhilePrefix(s[1..], p, n - 1);
      assert s[1..][..n - 1] == s[1..n];
    }
  }

  /** Dropping a passing prefix up to the first failing element is what `skipWhile` does. */
  lemma {:induction false} SkipWhileFrom<T>(s: seq<T>, p: T -> bool, n: nat)
    requires n <= |s|
    requires forall i :: 0 <= i < n ==> p(s[i])
    requires n < |s| ==> !p(s[n])
    ensures SkipWhile(s, p) == s[n..]
    decreases n
  {
    if n > 0 {
      SkipWhileFrom(s[1..], p, n - 1);
      assert s[1..][n - 1..] == s[n..];
    }
  }
}
