/**
 * The generators behind the lazy operators, one pull at a time. Each
 * generator is a cursor over its parent's enumeration (a `seq` read through
 * an index) plus whatever the closure in the source captures; a `Next`
 * method performs one call of the generator's closure, and a `Drain` method
 * calls it until it yields nothing. Every drain is proved to produce exactly
 * the sequence the functional model of the operator describes.
 */
module Cursors {
  import opened Optional
  import opened Seqs
  import opened Transforms
  import opened Grouping

  // ---------------------------------------------------------------- join

  /**
   * The state captured by the `join` generator: how far the outer generator
   * has been pulled, the outer element currently being paired, and the inner
   * group being walked with how much of it has been handed out.
   */
  datatype JoinCursor<T, U> = JoinCursor(next: nat, current: Option<T>, group: seq<U>, used: nat)

  ghost predicate JoinCursorValid<T, U>(c: JoinCursor<T, U>, outer: seq<T>) {
    c.next <= |outer| && c.used <= |c.group| && (c.used < |c.group| ==> c.current.Some?)
  }

  /** What is left to hand out: the rest of the current group, then the remaining outer elements' matches. */
  ghost function JoinRemaining<T, U, K, R>(
    c: JoinCursor<T, U>, outer: seq<T>, table: map<K, seq<U>>, outerKey: T -> K, result: (T, U) -> R): seq<R>
    requires JoinCursorValid(c, outer)
  {
    (if c.used < |c.group| then Map(c.group[c.used..], PairWith(result, c.current.value)) else [])
      + JoinWith(outer[c.next..], table, outerKey, result)
  }

  lemma MapUnfold<T, R>(s: seq<T>, i: nat, f: T -> R)
    requires i < |s|
    ensures Map(s[i..], f) == [f(s[i])] + Map(s[i + 1..], f)
  {
    assert s[i..][1..] == s[i + 1..];
  }

  lemma JoinWithUnfold<T, U, K, R>(outer: seq<T>, i: nat, table: map<K, seq<U>>, outerKey: T -> K, result: (T, U) -> R)
    requires i < |outer|
    ensures JoinWith(outer[i..], table, outerKey, result)
         == (if outerKey(outer[i]) in table then Map(table[outerKey(outer[i])], PairWith(result, outer[i])) else [])
            + JoinWith(outer[i + 1..], table, outerKey, result)
  {
    assert outer[i..][0] == outer[i];
    assert outer[i..][1..] == outer[i + 1..];
  }

  /** Handing out the next pair of the current group leaves the rest owed. */
  lemma JoinHandOut<T, U, K, R>(c: JoinCursor<T, U>, outer: seq<T>, table: map<K, seq<U>>, outerKey: T -> K, result: (T, U) -> R)
    requires JoinCursorValid(c, outer) && c.used < |c.group|
    ensures JoinCursorValid(c.(used := c.used + 1), outer)
    ensures JoinRemaining(c, outer, table, outerKey, result)
         == [result(c.current.value, c.group[c.used])] + JoinRemaining(c.(used := c.used + 1), outer, table, outerKey, result)
  {
    MapUnfold(c.group, c.used, PairWith(result, c.current.value));
  }

  /**
   * One call of the `join` generator: hand out the next pair of the current
   * group if there is one; otherwise pull outer elements until one has a
   * non-empty group, start walking it and hand out its first pair; when the
   * outer generator runs dry, yield nothing.
   */
  method JoinNext<T, U, K, R>(c: JoinCursor<T, U>, outer: seq<T>, table: map<K, seq<U>>, outerKey: T -> K, result: (T, U) -> R)
    returns (c': JoinCursor<T, U>, r: Option<R>)
    requires JoinCursorValid(c, outer)
    requires forall k | k in table :: |table[k]| > 0
    ensures JoinCursorValid(c', outer)
    ensures r.None? ==> JoinRemaining(c, outer, table, outerKey, result) == []
    ensures r.Some? ==> JoinRemaining(c, outer, table, outerKey, result)
                        == [r.value] + JoinRemaining(c', outer, table, outerKey, result)
  {
    if c.used < |c.group| {
      r := Some(result(c.current.value, c.group[c.used]));
      c' := c.(used := c.used + 1);
      JoinHandOut(c, outer, table, outerKey, result);
    } else {
      c', r := JoinPullOuter(c, outer, table, outerKey, result);
    }
  }

  /**
   * The second loop of the `join` generator, entered once the current group
   * is used up: pull outer elements until one's key has a group, and hand
   * out its pair with the group's first element (the forced unwrap cannot
   * fail, as no group is empty).
   */
  method JoinPullOuter<T, U, K, R>(c: JoinCursor<T, U>, outer: seq<T>, table: map<K, seq<U>>, outerKey: T -> K, result: (T, U) -> R)
    returns (c': JoinCursor<T, U>, r: Option<R>)
    requires JoinCursorValid(c, outer) && c.used >= |c.group|
    requires forall k | k in table :: |table[k]| > 0
    ensures JoinCursorValid(c', outer)
    ensures r.None? ==> JoinRemaining(c, outer, table, outerKey, result) == []
    ensures r.Some? ==> JoinRemaining(c, outer, table, outerKey, result)
                        == [r.value] + JoinRemaining(c', outer, table, outerKey, result)
  {
    var i := c.next;
    ghost var owed := JoinRemaining(c, outer, table, outerKey, result);
    while i < |outer|
      invariant c.next <= i <= |outer|
      invariant owed == JoinWith(outer[i..], table, outerKey, result)
    {
      var element := outer[i];
      var k := outerKey(element);
      JoinWithUnfold(outer, i, table, outerKey, result);
      i := i + 1;
      if k in table {
        var group := table[k];
        c' := JoinCursor(i, Some(element), group, 1);
        r := Some(result(element, group[0]));
        MapUnfold(group, 0, PairWith(result, element));
        assert group[0..] == group;
        return;
      }
    }
    c' := JoinCursor(i, None, [], 0);
    r := None;
    assert outer[i..] == [];
  }

  /** Building the inner dictionary and then pulling the generator dry yields exactly `join`. */
  method JoinDrain<T, U, K(==), R>(outer: seq<T>, inner: seq<U>, outerKey: T -> K, innerKey: U -> K, result: (T, U) -> R)
    returns (out: seq<R>)
    ensures out == Join(outer, inner, outerKey, innerKey, result)
  {
    var table := GroupTable(inner, innerKey);
    GroupTableContents(inner, innerKey);
    var c: JoinCursor<T, U> := JoinCursor(0, None, [], 0);
    out := [];
    while true
      invariant JoinCursorValid(c, outer)
      invariant out + JoinRemaining(c, outer, table, outerKey, result) == Join(outer, inner, outerKey, innerKey, result)
      decreases |JoinRemaining(c, outer, table, outerKey, result)|
    {
      var r;
      var c0 := c;
      c, r := JoinNext(c, outer, table, outerKey, result);
      if r.None? {
        assert out + JoinRemaining(c0, outer, table, outerKey, result) == out;
        return;
      }
      out := out + [r.value];
    }
  }

  // ---------------------------------------------------------- selectMany

  /**
   * The state captured by the `selectMany` generator: how far the outer
   * generator has been pulled, the index counter handed to the selector,
   * and the current inner sequence with how much of it has been handed out.
   */
  datatype ManyCursor<T, C> = ManyCursor(next: nat, counter: int, inner: seq<C>, used: nat)

  ghost predicate ManyCursorValid<T, C>(c: ManyCursor<T, C>, s: seq<T>) {
    c.next <= |s| && c.used <= |c.inner| && c.counter == c.next
  }

  ghost function ManyRemaining<T, C, R>(c: ManyCursor<T, C>, s: seq<T>, selector: (T, int) -> seq<C>, result: C -> R): seq<R>
    requires ManyCursorValid(c, s)
  {
    Map(c.inner[c.used..], result) + SelectManyFrom(s[c.next..], selector, result, c.counter)
  }

  /** Expanding one outer element: its first result (if any), the rest of its results, then the later elements'. */
  lemma SelectManyStep<T, C, R>(s: seq<T>, i: nat, selector: (T, int) -> seq<C>, result: C -> R, counter: int)
    requires i < |s|
    ensures |selector(s[i], counter)| == 0 ==>
              SelectManyFrom(s[i..], selector, result, counter) == SelectManyFrom(s[i + 1..], selector, result, counter + 1)
    ensures |selector(s[i], counter)| > 0 ==>
              SelectManyFrom(s[i..], selector, result, counter)
              == [result(selector(s[i], counter)[0])]
                 + (Map(selector(s[i], counter)[1..], result) + SelectManyFrom(s[i + 1..], selector, result, counter + 1))
  {
    assert s[i..][0] == s[i];
    assert s[i..][1..] == s[i + 1..];
    var many := selector(s[i], counter);
    if |many| > 0 {
      MapUnfold(many, 0, result);
      assert many[0..] == many;
    }
  }

  /** Handing out the next element of the current inner sequence leaves the rest owed. */
  lemma ManyHandOut<T, C, R>(c: ManyCursor<T, C>, s: seq<T>, selector: (T, int) -> seq<C>, result: C -> R)
    requires ManyCursorValid(c, s) && c.used < |c.inner|
    ensures ManyCursorValid(c.(used := c.used + 1), s)
    ensures ManyRemaining(c, s, selector, result)
         == [result(c.inner[c.used])] + ManyRemaining(c.(used := c.used + 1), s, selector, result)
  {
    MapUnfold(c.inner, c.used, result);
  }

  /**
   * One call of the `selectMany` generator: the next element of the current
   * inner sequence if any; otherwise pull outer elements, expanding each with
   * the selector and the post-incremented counter, until an expansion is
   * non-empty; nothing once the outer generator runs dry.
   */
  method ManyNext<T, C, R>(c: ManyCursor<T, C>, s: seq<T>, selector: (T, int) -> seq<C>, result: C -> R)
    returns (c': ManyCursor<T, C>, r: Option<R>)
    requires ManyCursorValid(c, s)
    ensures ManyCursorValid(c', s)
    ensures r.None? ==> ManyRemaining(c, s, selector, result) == []
    ensures r.Some? ==> ManyRemaining(c, s, selector, result) == [r.value] + ManyRemaining(c', s, selector, result)
  {
    if c.used < |c.inner| {
      r := Some(result(c.inner[c.used]));
      c' := c.(used := c.used + 1);
      ManyHandOut(c, s, selector, result);
    } else {
      c', r := ManyPullOuter(c, s, selector, result);
    }
  }

  /**
   * The second loop of the `selectMany` generator, entered once the current
   * inner sequence is used up: pull outer elements until one expands to a
   * non-empty inner sequence, and hand out its first element.
   */
  method ManyPullOuter<T, C, R>(c: ManyCursor<T, C>, s: seq<T>, selector: (T, int) -> seq<C>, result: C -> R)
    returns (c': ManyCursor<T, C>, r: Option<R>)
    requires ManyCursorValid(c, s) && c.used == |c.inner|
    ensures ManyCursorValid(c', s)
    ensures r.None? ==> ManyRemaining(c, s, selector, result) == []
    ensures r.Some? ==> ManyRemaining(c, s, selector, result) == [r.value] + ManyRemaining(c', s, selector, result)
  {
    var i := c.next;
    var counter := c.counter;
    ghost var owed := ManyRemaining(c, s, selector, result);
    assert owed == SelectManyFrom(s[i..], selector, result, counter);
    while i < |s|
      invariant c.next <= i <= |s| && counter == i
      invariant owed == SelectManyFrom(s[i..], selector, result, counter)
    {
      var many := selector(s[i], counter);
      SelectManyStep(s, i, selector, result, counter);
      i := i + 1;
      counter := counter + 1;
      if |many| > 0 {
        c' := ManyCursor(i, counter, many, 1);
        r := Some(result(many[0]));
        assert ManyRemaining(c', s, selector, result) == Map(many[1..], result) + SelectManyFrom(s[i..], selector, result, counter);
        return;
      }
    }
    c' := ManyCursor(i, counter, [], 0);
    r := None;
    assert s[i..] == [];
  }

  /** Pulling the `selectMany` generator dry yields exactly `selectMany`. */
  method SelectManyDrain<T, C, R>(s: seq<T>, selector: (T, int) -> seq<C>, result: C -> R) returns (out: seq<R>)
    ensures out == SelectMany(s, selector, result)
  {
    var c: ManyCursor<T, C> := ManyCursor(0, 0, [], 0);
    out := [];
    while true
      invariant ManyCursorValid(c, s)
      invariant out + ManyRemaining(c, s, selector, result) == SelectMany(s, selector, result)
      decreases |ManyRemaining(c, s, selector, result)|
    {
      var r;
      var c0 := c;
      c, r := ManyNext(c, s, selector, result);
      if r.None? {
        assert out + ManyRemaining(c0, s, selector, result) == out;
        return;
      }
      out := out + [r.value];
    }
  }

  // ---------------------------------------------------------------- take

  /**
   * Pulling the `take(count)` generator dry. Each call first compares the
   * counter with `count`, and only below it bumps the counter and forwards
   * one pull to the parent, whose nil ends the enumeration. `pulls` counts
   * the parent pulls: never more than `count`, and exactly one past the end
   * of a parent shorter than `count`.
   */
  method TakeDrain<T>(s: seq<T>, count: int) returns (out: seq<T>, pulls: nat)
    ensures out == Take(s, count)
    ensures pulls == if count <= 0 then 0 else if count <= |s| then count else |s| + 1
  {
    var counter := 0;
    var pos := 0;
    out := [];
    pulls := 0;
    while true
      invariant 0 <= pos <= |s| && counter == pos == pulls == |out|
      invariant if count > 0 then pos <= count else pos == 0
      invariant out == s[..pos]
      decreases |s| - pos
    {
      if counter >= count {
        return;
      }
      counter := counter + 1;
      pulls := pulls + 1;
      if pos == |s| {
        return;
      }
      out := out + [s[pos]];
      pos := pos + 1;
    }
  }

  // ----------------------------------------------------------- takeWhile

  /**
   * Pulling the `takeWhile(p)` generator dry. The first element failing `p`
   * is consumed from the parent and swallowed, so the parent is pulled
   * exactly once more than the length of the result — also when every
   * element passes, the last pull being the parent's nil. The generator's
   * `found` flag only silences calls made after its first nil, which a
   * drain never makes, so it has no counterpart here.
   */
  method TakeWhileDrain<T>(s: seq<T>, p: T -> bool) returns (out: seq<T>, pulls: nat)
    ensures out == TakeWhile(s, p)
    ensures pulls == |out| + 1
  {
    var pos := 0;
    out := [];
    pulls := 0;
    while true
      invariant 0 <= pos <= |s| && pulls == pos == |out|
      invariant out == s[..pos]
      invariant forall i :: 0 <= i < pos ==> p(s[i])
      decreases |s| - pos
    {
      pulls := pulls + 1;
      if pos == |s| {
        TakeWhilePrefix(s, p, pos);
        return;
      }
      var e := s[pos];
      pos := pos + 1;
      if p(e) {
        out := out + [e];
      } else {
        TakeWhilePrefix(s, p, pos - 1);
        return;
      }
    }
  }

  // ----------------------------------------------------------- skipWhile

  /**
   * Pulling the `skipWhile(p)` generator dry: the first call pulls past the
   * passing elements and hands out the first failing one, setting `found`;
   * every later call forwards the parent untouched, so `p` is never applied
   * to anything after that element.
   */
  method SkipWhileDrain<T>(s: seq<T>, p: T -> bool) returns (out: seq<T>)
    ensures out == SkipWhile(s, p)
  {
    var found := false;
    var pos := 0;
    ghost var start := 0;
    out := [];
    while pos < |s|
      invariant 0 <= start <= pos <= |s|
      invariant forall i :: 0 <= i < start ==> p(s[i])
      invariant !found ==> start == pos && out == []
      invariant found ==> start < pos && !p(s[start]) && out == s[start..pos]
    {
      var e := s[pos];
      if found {
        out := out + [e];
      } else if !p(e) {
        found := true;
        out := [e];
      } else {
        start := start + 1;
      }
      pos := pos + 1;
    }
    SkipWhileFrom(s, p, start);
  }

  // ---------------------------------------------------------------- skip

  /**
   * Pulling the `skip(count)` generator dry: `count` pulls are discarded up
   * front (a pull from an exhausted parent yields nothing and changes
   * nothing), after which the parent's generator is handed out as is.
   */
  method SkipDrain<T>(s: seq<T>, count: int) returns (out: seq<T>)
    requires count >= 0
    ensures out == Skip(s, count)
  {
    var pos := 0;
    var n := 0;
    while n < count
      invariant 0 <= n <= count
      invariant pos == if n <= |s| then n else |s|
    {
      if pos < |s| {
        pos := pos + 1;
      }
      n := n + 1;
    }
    out := s[pos..];
  }
}
