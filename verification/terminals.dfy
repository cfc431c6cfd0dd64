/**
 * The eager terminal operators of `SinqSequence`: they enumerate (part of)
 * the sequence and return a value. A Swift forced unwrap of an absent value
 * (`first()`, `last()`, seedless `reduce`, `min`/`max`/`argmin`/`argmax` on
 * an empty source) becomes a precondition; the `OrNil` forms return an
 * `Option`.
 */
module Terminals {
  import opened Optional
  import opened Seqs
  import opened Transforms

  /** `count()`: one increment per pulled element. */
  function Count<T>(s: seq<T>): (n: nat)
    ensures n == |s|
    decreases |s|
  {
    if |s| == 0 then 0 else 1 + Count(s[1..])
  }

  /** `all(predicate)`: stops at the first element failing the predicate. */
  function All<T>(s: seq<T>, p: T -> bool): (b: bool)
    ensures b <==> forall i :: 0 <= i < |s| ==> p(s[i])
    decreases |s|
  {
    |s| == 0 || (p(s[0]) && All(s[1..], p))
  }

  /** `any()`: whether a first element can be pulled. */
  function AnyElement<T>(s: seq<T>): (b: bool)
    ensures b <==> |s| > 0
  {
    FirstOrNil(s).Some?
  }

  /** `any(predicate)`: stops at the first element satisfying the predicate. */
  function Any<T>(s: seq<T>, p: T -> bool): (b: bool)
    ensures b <==> exists i :: 0 <= i < |s| && p(s[i])
    decreases |s|
  {
    |s| > 0 && (p(s[0]) || Any(s[1..], p))
  }

  /** `any(p)` is the negation of `all(not p)`. */
  lemma AnyIsNotAllNot<T>(s: seq<T>, p: T -> bool, q: T -> bool)
    requires forall x :: q(x) == !p(x)
    ensures Any(s, p) == !All(s, q)
  {
  }

  /** `contains(value, equality)`: some element `e` has `equality(e, value)`. */
  function Contains<T>(s: seq<T>, value: T, eq: (T, T) -> bool): (b: bool)
    ensures b <==> exists i :: 0 <= i < |s| && eq(s[i], value)
    decreases |s|
  {
    |s| > 0 && (eq(s[0], value) || Contains(s[1..], value, eq))
  }

  /** `contains(value, key)`: some element has the same key as `value`. */
  function ContainsByKey<T, K(==)>(s: seq<T>, value: T, key: T -> K): (b: bool)
    ensures b <==> key(value) in KeysOf(s, key)
  {
    Contains(s, value, (a, b) => key(a) == key(b))
  }

  /** `firstOrNil(predicate)`: the first element satisfying the predicate, if any. */
  function FirstMatchOrNil<T>(s: seq<T>, p: T -> bool): (r: Option<T>)
    ensures r.None? <==> forall i :: 0 <= i < |s| ==> !p(s[i])
    ensures r.Some? ==> exists i :: 0 <= i < |s| && s[i] == r.value && p(s[i])
                                    && forall j :: 0 <= j < i ==> !p(s[j])
    decreases |s|
  {
    if |s| == 0 then None
    else if p(s[0]) then Some(s[0])
    else
      var r := FirstMatchOrNil(s[1..], p);
      assert forall i :: 1 <= i < |s| ==> s[i] == s[1..][i - 1];
      r
  }

  /** `firstOrNil()`: the first pulled element, if any. */
  function FirstOrNil<T>(s: seq<T>): (r: Option<T>)
    ensures r.None? <==> |s| == 0
    ensures r.Some? ==> r.value == s[0]
  {
    if |s| == 0 then None else Some(s[0])
  }

  /** The predicate-free form is the predicate form with an always-true predicate. */
  lemma FirstOrNilIsFirstMatch<T>(s: seq<T>)
    ensures FirstOrNil(s) == FirstMatchOrNil(s, _ => true)
  {
  }

  /** `first()`: a forced unwrap of `firstOrNil()`. */
  function First<T>(s: seq<T>): (r: T)
    requires |s| > 0
    ensures FirstOrNil(s) == Some(r)
  {
    s[0]
  }

  /** `first(predicate)`: a forced unwrap of `firstOrNil(predicate)`. */
  function FirstMatch<T>(s: seq<T>, p: T -> bool): (r: T)
    requires exists i :: 0 <= i < |s| && p(s[i])
    ensures p(r) && r in s
    ensures FirstMatchOrNil(s, p) == Some(r)
  {
    FirstMatchOrNil(s, p).value
  }

  /** `firstOrDefault(defaultElement)`. */
  function FirstOrDefault<T>(s: seq<T>, default: T): (r: T)
    ensures |s| == 0 ==> r == default
    ensures |s| > 0 ==> r == s[0]
  {
    FirstOrNil(s).GetOr(default)
  }

  /** `firstOrDefault(defaultElement, predicate)`. */
  function FirstMatchOrDefault<T>(s: seq<T>, default: T, p: T -> bool): (r: T)
    ensures (forall i :: 0 <= i < |s| ==> !p(s[i])) ==> r == default
    ensures (exists i :: 0 <= i < |s| && p(s[i])) ==>
              exists i :: 0 <= i < |s| && s[i] == r && p(s[i]) && forall j :: 0 <= j < i ==> !p(s[j])
    ensures FirstMatchOrNil(s, p).None? ==> r == default
    ensures FirstMatchOrNil(s, p).Some? ==> r == FirstMatchOrNil(s, p).value
  {
    FirstMatchOrNil(s, p).GetOr(default)
  }

  /**
   * `lastOrNil(predicate)`: the loop overwrites its candidate with every
   * matching element, so the last match wins.
   */
  function LastMatchOrNil<T>(s: seq<T>, p: T -> bool): (r: Option<T>)
    ensures r.None? <==> forall i :: 0 <= i < |s| ==> !p(s[i])
    ensures r.Some? ==> exists i :: 0 <= i < |s| && s[i] == r.value && p(s[i])
                                    && forall j :: i < j < |s| ==> !p(s[j])
    decreases |s|
  {
    if |s| == 0 then None
    else if p(s[|s| - 1]) then Some(s[|s| - 1])
    else
      var init := s[..|s| - 1];
      var r := LastMatchOrNil(init, p);
      assert forall i :: 0 <= i < |init| ==> s[i] == init[i];
      assert r.Some? ==> exists i :: 0 <= i < |s| && s[i] == r.value && p(s[i])
                                     && forall j :: i < j < |s| ==> !p(s[j]) by {
        if r.Some? {
          var i :| 0 <= i < |init| && init[i] == r.value && p(init[i])
                   && forall j :: i < j < |init| ==> !p(init[j]);
          assert forall j :: i < j < |s| ==> !p(s[j]);
        }
      }
      r
  }

  /** The last match is the first match of the reversed sequence. */
  lemma {:induction false} LastMatchIsFirstMatchOfReverse<T>(s: seq<T>, p: T -> bool)
    ensures LastMatchOrNil(s, p) == FirstMatchOrNil(Reverse(s), p)
    decreases |s|
  {
    if |s| > 0 {
      var init := s[..|s| - 1];
      LastMatchIsFirstMatchOfReverse(init, p);
      assert Reverse(s)[1..] == Reverse(init);
    }
  }

  /** `lastOrNil()`: the loop keeps the most recently pulled element. */
  function LastOrNil<T>(s: seq<T>): (r: Option<T>)
    ensures r.None? <==> |s| == 0
    ensures r.Some? ==> r.value == s[|s| - 1]
  {
    LastMatchOrNil(s, _ => true)
  }

  /** `last()`: a forced unwrap of `lastOrNil()`. */
  function Last<T>(s: seq<T>): (r: T)
    requires |s| > 0
    ensures r == s[|s| - 1]
  {
    LastOrNil(s).value
  }

  /** `last(predicate)`: a forced unwrap of `lastOrNil(predicate)`. */
  function LastMatch<T>(s: seq<T>, p: T -> bool): (r: T)
    requires exists i :: 0 <= i < |s| && p(s[i])
    ensures p(r) && r in s
    ensures LastMatchOrNil(s, p) == Some(r)
  {
    LastMatchOrNil(s, p).value
  }

  /** `lastOrDefault(defaultElement)`. */
  function LastOrDefault<T>(s: seq<T>, default: T): (r: T)
    ensures |s| == 0 ==> r == default
    ensures |s| > 0 ==> r == s[|s| - 1]
  {
    LastOrNil(s).GetOr(default)
  }

  /** `lastOrDefault(defaultElement, predicate)`. */
  function LastMatchOrDefault<T>(s: seq<T>, default: T, p: T -> bool): (r: T)
    ensures (forall i :: 0 <= i < |s| ==> !p(s[i])) ==> r == default
    ensures (exists i :: 0 <= i < |s| && p(s[i])) ==>
              exists i :: 0 <= i < |s| && s[i] == r && p(s[i]) && forall j :: i < j < |s| ==> !p(s[j])
    ensures LastMatchOrNil(s, p).None? ==> r == default
    ensures LastMatchOrNil(s, p).Some? ==> r == LastMatchOrNil(s, p).value
  {
    LastMatchOrNil(s, p).GetOr(default)
  }

  /**
   * `elementAtOrNil(index)`: none for a negative index; otherwise `index`
   * pulls are discarded and the next pull is the answer.
   */
  function ElementAtOrNil<T>(s: seq<T>, index: int): (r: Option<T>)
    ensures r.Some? <==> 0 <= index < |s|
    ensures r.Some? ==> r.value == s[index]
  {
    if index < 0 then None else NthPull(s, index)
  }

  /** The pull after `skipped` discarded pulls. */
  function NthPull<T>(s: seq<T>, skipped: nat): (r: Option<T>)
    ensures r.Some? <==> skipped < |s|
    ensures r.Some? ==> r.value == s[skipped]
    decreases |s|
  {
    if |s| == 0 then None
    else if skipped == 0 then Some(s[0])
    else NthPull(s[1..], skipped - 1)
  }

  /** `elementAt(index)`: a forced unwrap of `elementAtOrNil(index)`. */
  function ElementAt<T>(s: seq<T>, index: int): (r: T)
    requires 0 <= index < |s|
    ensures ElementAtOrNil(s, index) == Some(r)
  {
    ElementAtOrNil(s, index).value
  }

  /** `elementAt(index, orDefault)`. */
  function ElementAtOrDefault<T>(s: seq<T>, index: int, default: T): (r: T)
    ensures (index < 0 || index >= |s|) ==> r == default
    ensures 0 <= index < |s| ==> r == s[index]
  {
    ElementAtOrNil(s, index).GetOr(default)
  }

  /**
   * Seedless `reduce(combine)`: the first pulled element seeds the
   * accumulator (a forced unwrap), every later element is combined into it.
   */
  method Reduce<T>(s: seq<T>, combine: (T, T) -> T) returns (r: T)
    requires |s| > 0
    ensures r == FoldLeft(combine, s[0], s[1..])
  {
    r := s[0];
    var i := 1;
    while i < |s|
      invariant 1 <= i <= |s|
      invariant FoldLeft(combine, r, s[i..]) == FoldLeft(combine, s[0], s[1..])
    {
      assert s[i..][1..] == s[i + 1..];
      r := combine(r, s[i]);
      i := i + 1;
    }
  }

  /** `reduce(initial, combine, result)`: the result selector applied to the fold. */
  function ReduceWithResult<C, T, R>(s: seq<T>, initial: C, combine: (C, T) -> C, result: C -> R): R {
    result(FoldLeft(combine, initial, s))
  }

  /**
   * Running the seedless `reduce` on the seed followed by the source
   * computes the seeded fold: the two `reduce` forms agree.
   */
  method SeedlessReduceOfPrepended<T>(s: seq<T>, initial: T, combine: (T, T) -> T) returns (r: T)
    ensures r == FoldLeft(combine, initial, s)
  {
    r := Reduce([initial] + s, combine);
    assert ([initial] + s)[1..] == s;
  }

  /** The `max` loop: the running maximum `ret` over the keys still to be pulled. */
  function MaxFrom<T>(ret: int, rest: seq<T>, key: T -> int): (m: int)
    ensures ret <= m
    ensures forall i :: 0 <= i < |rest| ==> key(rest[i]) <= m
    ensures m == ret || exists i :: 0 <= i < |rest| && key(rest[i]) == m
    decreases |rest|
  {
    if |rest| == 0 then ret
    else
      var m := MaxFrom(if key(rest[0]) > ret then key(rest[0]) else ret, rest[1..], key);
      assert forall i :: 1 <= i < |rest| ==> rest[i] == rest[1..][i - 1];
      m
  }

  /** `max(key)`: the largest key (a forced unwrap of the first pull). */
  function Max<T>(s: seq<T>, key: T -> int): (m: int)
    requires |s| > 0
    ensures exists i :: 0 <= i < |s| && key(s[i]) == m
    ensures forall i :: 0 <= i < |s| ==> key(s[i]) <= m
  {
    var m := MaxFrom(key(s[0]), s[1..], key);
    assert forall i :: 1 <= i < |s| ==> s[i] == s[1..][i - 1];
    m
  }

  /** The `min` loop: the running minimum `ret` over the keys still to be pulled. */
  function MinFrom<T>(ret: int, rest: seq<T>, key: T -> int): (m: int)
    ensures m <= ret
    ensures forall i :: 0 <= i < |rest| ==> m <= key(rest[i])
    ensures m == ret || exists i :: 0 <= i < |rest| && key(rest[i]) == m
    decreases |rest|
  {
    if |rest| == 0 then ret
    else
      var m := MinFrom(if key(rest[0]) < ret then key(rest[0]) else ret, rest[1..], key);
      assert forall i :: 1 <= i < |rest| ==> rest[i] == rest[1..][i - 1];
      m
  }

  /** `min(key)`: the smallest key. */
  function Min<T>(s: seq<T>, key: T -> int): (m: int)
    requires |s| > 0
    ensures exists i :: 0 <= i < |s| && key(s[i]) == m
    ensures forall i :: 0 <= i < |s| ==> m <= key(s[i])
  {
    var m := MinFrom(key(s[0]), s[1..], key);
    assert forall i :: 1 <= i < |s| ==> s[i] == s[1..][i - 1];
    m
  }

  /**
   * The `argmax` loop, tracking the candidate by its position `best` while
   * position `next` is pulled; the candidate is replaced only by a strictly
   * larger key.
   */
  function ArgMaxIndexFrom<T>(s: seq<T>, key: T -> int, best: nat, next: nat): (r: nat)
    requires best < next <= |s|
    requires forall j :: 0 <= j < next ==> key(s[j]) <= key(s[best])
    requires forall j :: 0 <= j < best ==> key(s[j]) < key(s[best])
    ensures r < |s|
    ensures forall j :: 0 <= j < |s| ==> key(s[j]) <= key(s[r])
    ensures forall j :: 0 <= j < r ==> key(s[j]) < key(s[r])
    decreases |s| - next
  {
    if next == |s| then best
    else ArgMaxIndexFrom(s, key, if key(s[next]) > key(s[best]) then next else best, next + 1)
  }

  /**
   * `argmax(key)`: the element with the largest key; on ties the first such
   * element wins.
   */
  function ArgMax<T>(s: seq<T>, key: T -> int): (r: T)
    requires |s| > 0
    ensures exists i :: 0 <= i < |s| && s[i] == r
                        && (forall j :: 0 <= j < |s| ==> key(s[j]) <= key(s[i]))
                        && (forall j :: 0 <= j < i ==> key(s[j]) < key(s[i]))
  {
    s[ArgMaxIndexFrom(s, key, 0, 1)]
  }

  /** The `argmin` loop, mirrored: replaced only by a strictly smaller key. */
  function ArgMinIndexFrom<T>(s: seq<T>, key: T -> int, best: nat, next: nat): (r: nat)
    requires best < next <= |s|
    requires forall j :: 0 <= j < next ==> key(s[best]) <= key(s[j])
    requires forall j :: 0 <= j < best ==> key(s[best]) < key(s[j])
    ensures r < |s|
    ensures forall j :: 0 <= j < |s| ==> key(s[r]) <= key(s[j])
    ensures forall j :: 0 <= j < r ==> key(s[r]) < key(s[j])
    decreases |s| - next
  {
    if next == |s| then best
    else ArgMinIndexFrom(s, key, if key(s[next]) < key(s[best]) then next else best, next + 1)
  }

  /** `argmin(key)`: the element with the smallest key, the first one on ties. */
  function ArgMin<T>(s: seq<T>, key: T -> int): (r: T)
    requires |s| > 0
    ensures exists i :: 0 <= i < |s| && s[i] == r
                        && (forall j :: 0 <= j < |s| ==> key(s[i]) <= key(s[j]))
                        && (forall j :: 0 <= j < i ==> key(s[i]) < key(s[j]))
  {
    s[ArgMinIndexFrom(s, key, 0, 1)]
  }

  /** `max` and `argmax` (and `min` and `argmin`) agree on the extreme key. */
  lemma ExtremeKeysAgree<T>(s: seq<T>, key: T -> int)
    requires |s| > 0
    ensures Max(s, key) == key(ArgMax(s, key))
    ensures Min(s, key) == key(ArgMin(s, key))
  {
  }

  /**
   * `toDictionary(keyValue)`: every element writes its pair into the
   * dictionary in enumeration order, so the last write for a key wins.
   */
  function ToDictionary<T, K, V>(s: seq<T>, keyValue: T -> (K, V)): (d: map<K, V>)
    ensures d.Keys == set i | 0 <= i < |s| :: keyValue(s[i]).0
    ensures forall i :: 0 <= i < |s| && (forall j :: i < j < |s| ==> keyValue(s[j]).0 != keyValue(s[i]).0)
              ==> d[keyValue(s[i]).0] == keyValue(s[i]).1
    decreases |s|
  {
    if |s| == 0 then map[]
    else
      var init := s[..|s| - 1];
      var d := ToDictionary(init, keyValue);
      var kv := keyValue(s[|s| - 1]);
      assert forall i :: 0 <= i < |s| - 1 ==> s[i] == init[i];
      d[kv.0 := kv.1]
  }

  /** `toDictionary(key, value)`. */
  function ToDictionaryBy<T, K, V>(s: seq<T>, key: T -> K, value: T -> V): (d: map<K, V>)
    ensures d.Keys == KeysOf(s, key)
    ensures forall i :: 0 <= i < |s| && (forall j :: i < j < |s| ==> key(s[j]) != key(s[i]))
              ==> d[key(s[i])] == value(s[i])
  {
    ToDictionary(s, x => (key(x), value(x)))
  }

  /** `toDictionary(key)`: each element is stored under its key. */
  function ToDictionaryByKey<T, K>(s: seq<T>, key: T -> K): (d: map<K, T>)
    ensures d.Keys == KeysOf(s, key)
    ensures forall i :: 0 <= i < |s| && (forall j :: i < j < |s| ==> key(s[j]) != key(s[i]))
              ==> d[key(s[i])] == s[i]
  {
    ToDictionary(s, x => (key(x), x))
  }
}
