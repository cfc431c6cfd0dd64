/**
 * The set operators `distinct`, `except`, `intersect` and `union`, each in
 * two variants: one taking an arbitrary equality function (a linear scan of
 * what was already seen) and one taking a hashable key (a dictionary of
 * seen keys).
 */
module SetOps {
  import opened Seqs
  import opened Terminals

  // ---------------------------------------------------------------------
  // Equality-function variants
  // ---------------------------------------------------------------------

  /**
   * The `distinct(equality)` generator with `kept` the elements already
   * handed out: an element is handed out iff no kept `u` has `equality(u, e)`.
   */
  function DistinctFrom<T>(kept: seq<T>, s: seq<T>, eq: (T, T) -> bool): (r: seq<T>)
    ensures NoTwoEqual(r, eq)
    ensures forall i, j :: 0 <= i < |kept| && 0 <= j < |r| ==> !eq(kept[i], r[j])
    ensures forall i :: 0 <= i < |s| ==> s[i] in r || Contains(kept + r, s[i], eq)
    decreases |s|
  {
    if |s| == 0 then []
    else if Contains(kept, s[0], eq) then
      var r := DistinctFrom(kept, s[1..], eq);
      assert forall i :: 1 <= i < |s| ==> s[i] == s[1..][i - 1];
      assert forall i :: 0 <= i < |kept| ==> (kept + r)[i] == kept[i];
      r
    else
      var rest := DistinctFrom(kept + [s[0]], s[1..], eq);
      var r := [s[0]] + rest;
      assert kept + [s[0]] + rest == kept + r;
      assert forall i :: 1 <= i < |s| ==> s[i] == s[1..][i - 1];
      assert NoTwoEqual(r, eq) by {
        forall i, j | 0 <= i < j < |r|
          ensures !eq(r[i], r[j])
        {
          assert r[j] == rest[j - 1] && (kept + [s[0]])[|kept|] == s[0];
          if i > 0 {
            assert r[i] == rest[i - 1];
          }
        }
      }
      assert forall i, j :: 0 <= i < |kept| && 0 <= j < |r| ==> !eq(kept[i], r[j]) by {
        forall i, j | 0 <= i < |kept| && 0 <= j < |r|
          ensures !eq(kept[i], r[j])
        {
          if j > 0 {
            assert r[j] == rest[j - 1] && (kept + [s[0]])[i] == kept[i];
          }
        }
      }
      r
  }

  /** What `distinct` hands out is a subsequence of its source. */
  lemma {:induction false} DistinctFromSubsequence<T>(kept: seq<T>, s: seq<T>, eq: (T, T) -> bool)
    ensures IsSubsequence(DistinctFrom(kept, s, eq), s)
    decreases |s|
  {
    if |s| > 0 {
      if Contains(kept, s[0], eq) {
        DistinctFromSubsequence(kept, s[1..], eq);
      } else {
        var rest := DistinctFrom(kept + [s[0]], s[1..], eq);
        DistinctFromSubsequence(kept + [s[0]], s[1..], eq);
        assert ([s[0]] + rest)[1..] == rest;
      }
    }
  }

  /**
   * `distinct(equality)`: a subsequence of the source with no two related
   * elements, in which every source element either appears or is related to
   * an element that appears.
   */
  function Distinct<T>(s: seq<T>, eq: (T, T) -> bool): (r: seq<T>)
    ensures IsSubsequence(r, s)
    ensures NoTwoEqual(r, eq)
    ensures forall i :: 0 <= i < |s| ==> s[i] in r || Contains(r, s[i], eq)
  {
    DistinctFromSubsequence([], s, eq);
    assert [] + DistinctFrom([], s, eq) == DistinctFrom([], s, eq);
    DistinctFrom([], s, eq)
  }

  /** A sequence with no two related elements passes `distinct` unchanged. */
  lemma {:induction false} DistinctFromFixes<T>(kept: seq<T>, d: seq<T>, eq: (T, T) -> bool)
    requires NoTwoEqual(d, eq)
    requires forall i, j :: 0 <= i < |kept| && 0 <= j < |d| ==> !eq(kept[i], d[j])
    ensures DistinctFrom(kept, d, eq) == d
    decreases |d|
  {
    if |d| > 0 {
      assert !Contains(kept, d[0], eq);
      var kept', rest := kept + [d[0]], d[1..];
      forall i, j | 0 <= i < |kept'| && 0 <= j < |rest|
        ensures !eq(kept'[i], rest[j])
      {
        assert rest[j] == d[j + 1];
        if i < |kept| {
          assert kept'[i] == kept[i];
        } else {
          assert kept'[i] == d[0];
        }
      }
      forall i, j | 0 <= i < j < |rest|
        ensures !eq(rest[i], rest[j])
      {
        assert rest[i] == d[i + 1] && rest[j] == d[j + 1];
      }
      DistinctFromFixes(kept', rest, eq);
      assert DistinctFrom(kept, d, eq) == [d[0]] + DistinctFrom(kept', rest, eq);
      assert d == [d[0]] + rest;
    }
  }

  /** `distinct` is idempotent, whatever the equality function. */
  lemma DistinctIdempotent<T>(s: seq<T>, eq: (T, T) -> bool)
    ensures Distinct(Distinct(s, eq), eq) == Distinct(s, eq)
  {
    DistinctFromFixes([], Distinct(s, eq), eq);
  }

  /** Relatedness to some element of a concatenation is relatedness to some element of either part. */
  lemma ContainsAppend<T>(a: seq<T>, b: seq<T>, x: T, eq: (T, T) -> bool)
    ensures Contains(a + b, x, eq) <==> Contains(a, x, eq) || Contains(b, x, eq)
  {
    if Contains(a, x, eq) {
      var i :| 0 <= i < |a| && eq(a[i], x);
      assert (a + b)[i] == a[i];
    }
    if Contains(a + b, x, eq) {
      var i :| 0 <= i < |a + b| && eq((a + b)[i], x);
      if i >= |a| {
        assert b[i - |a|] == (a + b)[i];
      }
    }
    if Contains(b, x, eq) {
      var i :| 0 <= i < |b| && eq(b[i], x);
      assert (a + b)[|a| + i] == b[i];
    }
  }

  /**
   * The `distinct(equality)` generator over `a + b` hands out what it hands
   * out for `a`, then what it hands out for `b` with that output kept.
   */
  lemma {:induction false} DistinctFromAppend<T>(kept: seq<T>, a: seq<T>, b: seq<T>, eq: (T, T) -> bool)
    ensures DistinctFrom(kept, a + b, eq)
         == DistinctFrom(kept, a, eq) + DistinctFrom(kept + DistinctFrom(kept, a, eq), b, eq)
    decreases |a|
  {
    if |a| == 0 {
      assert a + b == b && kept + [] == kept;
    } else {
      var x, a', ab := a[0], a[1..], a + b;
      assert ab[0] == x && ab[1..] == a' + b;
      DistinctFromStep(kept, a, eq);
      DistinctFromStep(kept, ab, eq);
      if Contains(kept, x, eq) {
        DistinctFromAppend(kept, a', b, eq);
        var head := DistinctFrom(kept, a', eq);
        assert DistinctFrom(kept, a, eq) == head;
        assert DistinctFrom(kept, ab, eq) == DistinctFrom(kept, a' + b, eq);
      } else {
        var kept' := kept + [x];
        DistinctFromAppend(kept', a', b, eq);
        var rest := DistinctFrom(kept', a', eq);
        assert DistinctFrom(kept, a, eq) == [x] + rest;
        assert DistinctFrom(kept, ab, eq) == [x] + DistinctFrom(kept', a' + b, eq);
        AppendAssoc(kept, [x], rest);
        AppendAssoc([x], rest, DistinctFrom(kept' + rest, b, eq));
      }
    }
  }

  /** One step of the `distinct(equality)` generator. */
  lemma DistinctFromStep<T>(kept: seq<T>, s: seq<T>, eq: (T, T) -> bool)
    requires |s| > 0
    ensures DistinctFrom(kept, s, eq)
         == if Contains(kept, s[0], eq) then DistinctFrom(kept, s[1..], eq)
            else [s[0]] + DistinctFrom(kept + [s[0]], s[1..], eq)
  {
  }

  /**
   * First occurrences win: extending the source by `x` extends `distinct`
   * by `x` exactly when nothing it already keeps is related to `x`.
   */
  lemma DistinctSnoc<T>(s: seq<T>, x: T, eq: (T, T) -> bool)
    ensures Distinct(s + [x], eq) == Distinct(s, eq) + (if Contains(Distinct(s, eq), x, eq) then [] else [x])
  {
    var d := Distinct(s, eq);
    DistinctFromAppend([], s, [x], eq);
    assert [] + d == d;
    assert [x][1..] == [];
  }

  /** The generator consults its kept list only through `Contains`. */
  lemma {:induction false} DistinctFromCongruent<T>(k1: seq<T>, k2: seq<T>, s: seq<T>, eq: (T, T) -> bool)
    requires forall y :: Contains(k1, y, eq) <==> Contains(k2, y, eq)
    ensures DistinctFrom(k1, s, eq) == DistinctFrom(k2, s, eq)
    decreases |s|
  {
    if |s| > 0 {
      if Contains(k1, s[0], eq) {
        DistinctFromCongruent(k1, k2, s[1..], eq);
      } else {
        forall y
          ensures Contains(k1 + [s[0]], y, eq) <==> Contains(k2 + [s[0]], y, eq)
        {
          ContainsAppend(k1, [s[0]], y, eq);
          ContainsAppend(k2, [s[0]], y, eq);
        }
        DistinctFromCongruent(k1 + [s[0]], k2 + [s[0]], s[1..], eq);
      }
    }
  }

  /**
   * For a transitive `eq`, keeping `extra` up front drops exactly the
   * elements related to something in `extra`.
   */
  lemma {:induction false} DistinctFromExtraKept<T>(extra: seq<T>, kept: seq<T>, s: seq<T>, eq: (T, T) -> bool)
    requires forall a, b, c :: eq(a, b) && eq(b, c) ==> eq(a, c)
    ensures DistinctFrom(extra + kept, s, eq) == Filter(DistinctFrom(kept, s, eq), NotContainedIn(extra, eq))
    decreases |s|
  {
    if |s| > 0 {
      var x := s[0];
      ContainsAppend(extra, kept, x, eq);
      if Contains(kept, x, eq) {
        DistinctFromExtraKept(extra, kept, s[1..], eq);
      } else {
        DistinctFromExtraKept(extra, kept + [x], s[1..], eq);
        assert extra + (kept + [x]) == extra + kept + [x];
        var rest := DistinctFrom(kept + [x], s[1..], eq);
        assert DistinctFrom(kept, s, eq) == [x] + rest;
        assert ([x] + rest)[1..] == rest;
        if Contains(extra, x, eq) {
          forall y
            ensures Contains(extra + kept + [x], y, eq) <==> Contains(extra + kept, y, eq)
          {
            ContainsAppend(extra + kept, [x], y, eq);
            ContainsAppend(extra, kept, y, eq);
            if eq(x, y) {
              var i :| 0 <= i < |extra| && eq(extra[i], x);
              assert eq(extra[i], y);
            }
          }
          DistinctFromCongruent(extra + kept, extra + kept + [x], s[1..], eq);
        }
      }
    }
  }

  /** For a transitive `eq`, an element is related to something in `distinct(s)` iff it is to something in `s`. */
  lemma DistinctContainsSame<T>(s: seq<T>, eq: (T, T) -> bool)
    requires forall a, b, c :: eq(a, b) && eq(b, c) ==> eq(a, c)
    ensures forall y :: Contains(Distinct(s, eq), y, eq) <==> Contains(s, y, eq)
  {
    var d := Distinct(s, eq);
    SubsequenceMembers(d, s);
    forall y
      ensures Contains(d, y, eq) <==> Contains(s, y, eq)
    {
      if Contains(d, y, eq) {
        var i :| 0 <= i < |d| && eq(d[i], y);
        assert d[i] in s;
        var j :| 0 <= j < |s| && s[j] == d[i];
      }
      if Contains(s, y, eq) {
        var i :| 0 <= i < |s| && eq(s[i], y);
        if s[i] in d {
          var j :| 0 <= j < |d| && d[j] == s[i];
        } else {
          var j :| 0 <= j < |d| && eq(d[j], s[i]);
          assert eq(d[j], y);
        }
      }
    }
  }

  /** The predicate "no element of `other` is related to x". */
  function NotContainedIn<T>(other: seq<T>, eq: (T, T) -> bool): T -> bool {
    x => !Contains(other, x, eq)
  }

  /** The predicate "some element of `other` is related to x". */
  function ContainedIn<T>(other: seq<T>, eq: (T, T) -> bool): T -> bool {
    x => Contains(other, x, eq)
  }

  /**
   * Filtering the distinct elements of `s` keeps them pairwise unrelated,
   * keeps only members of `s` that pass, and loses none that pass.
   */
  lemma FilteredDistinct<T>(s: seq<T>, eq: (T, T) -> bool, p: T -> bool)
    ensures IsSubsequence(Filter(Distinct(s, eq), p), Distinct(s, eq))
    ensures NoTwoEqual(Filter(Distinct(s, eq), p), eq)
    ensures forall x :: x in Filter(Distinct(s, eq), p) ==> x in s && p(x)
    ensures forall x :: x in Distinct(s, eq) && p(x) ==> x in Filter(Distinct(s, eq), p)
  {
    var d := Distinct(s, eq);
    var r := Filter(d, p);
    FilterKeepsNoTwoEqual(d, p, eq);
    FilterSubsequence(d, p);
    SubsequenceMembers(r, d);
    SubsequenceMembers(d, s);
    FilterMultiset(d, p);
    forall x | x in d && p(x) ensures x in r {
      assert multiset(d)[x] > 0;
    }
  }

  /** `except(sequence, equality)`: the distinct elements of `s` related to nothing in `other`. */
  function Except<T>(s: seq<T>, other: seq<T>, eq: (T, T) -> bool): (r: seq<T>)
    ensures IsSubsequence(r, Distinct(s, eq))
    ensures NoTwoEqual(r, eq)
    ensures forall i :: 0 <= i < |r| ==> r[i] in s && !Contains(other, r[i], eq)
    ensures forall x :: x in Distinct(s, eq) && !Contains(other, x, eq) ==> x in r
  {
    FilteredDistinct(s, eq, NotContainedIn(other, eq));
    Filter(Distinct(s, eq), NotContainedIn(other, eq))
  }

  /** `intersect(sequence, equality)`: the distinct elements of `s` related to something in `other`. */
  function Intersect<T>(s: seq<T>, other: seq<T>, eq: (T, T) -> bool): (r: seq<T>)
    ensures IsSubsequence(r, Distinct(s, eq))
    ensures NoTwoEqual(r, eq)
    ensures forall i :: 0 <= i < |r| ==> r[i] in s && Contains(other, r[i], eq)
    ensures forall x :: x in Distinct(s, eq) && Contains(other, x, eq) ==> x in r
  {
    FilteredDistinct(s, eq, ContainedIn(other, eq));
    Filter(Distinct(s, eq), ContainedIn(other, eq))
  }

  /** `except` and `intersect` split the distinct elements of `s` between them. */
  lemma ExceptIntersectPartition<T>(s: seq<T>, other: seq<T>, eq: (T, T) -> bool)
    ensures |Except(s, other, eq)| + |Intersect(s, other, eq)| == |Distinct(s, eq)|
    ensures forall x :: x in Distinct(s, eq) ==> (x in Except(s, other, eq) <==> x !in Intersect(s, other, eq))
  {
    FilterPartition(Distinct(s, eq), NotContainedIn(other, eq), ContainedIn(other, eq));
  }

  /**
   * `union(sequence, equality)`: the distinct elements of `s`, then the
   * distinct elements of `other` related to nothing in `s`.
   */
  function Union<T>(s: seq<T>, other: seq<T>, eq: (T, T) -> bool): (r: seq<T>)
    ensures NoTwoEqual(r, eq)
    ensures forall i :: 0 <= i < |r| ==> r[i] in s || r[i] in other
    ensures forall i :: 0 <= i < |s| ==> s[i] in r || Contains(r, s[i], eq)
  {
    var head := Distinct(s, eq);
    var tail := Except(Distinct(other, eq), s, eq);
    var r := head + tail;
    SubsequenceMembers(head, s);
    SubsequenceMembers(Distinct(other, eq), other);
    forall i, j | 0 <= i < j < |r|
      ensures !eq(r[i], r[j])
    {
      if j < |head| {
      } else if i >= |head| {
        assert r[i] == tail[i - |head|] && r[j] == tail[j - |head|];
      } else {
        assert r[j] == tail[j - |head|];
        assert r[i] in s;
      }
    }
    forall i | 0 <= i < |s|
      ensures s[i] in r || Contains(r, s[i], eq)
    {
      if !(s[i] in head) {
        var k :| 0 <= k < |head| && eq(head[k], s[i]);
        assert r[k] == head[k];
      }
    }
    r
  }

  /** The size of a union: all of `s`'s distinct elements plus those of `other` not related to `s`. */
  lemma UnionSize<T>(s: seq<T>, other: seq<T>, eq: (T, T) -> bool)
    ensures |Union(s, other, eq)|
         == |Distinct(s, eq)| + |Distinct(other, eq)| - |Intersect(Distinct(other, eq), s, eq)|
  {
    ExceptIntersectPartition(Distinct(other, eq), s, eq);
    DistinctIdempotent(other, eq);
  }

  /**
   * For a transitive `eq`, `union` is `distinct` of the concatenation: the
   * first occurrence of each class across `s` and then `other`, in order.
   */
  lemma UnionIsDistinctOfConcat<T>(s: seq<T>, other: seq<T>, eq: (T, T) -> bool)
    requires forall a, b, c :: eq(a, b) && eq(b, c) ==> eq(a, c)
    ensures Union(s, other, eq) == Distinct(s + other, eq)
  {
    var d, o := Distinct(s, eq), Distinct(other, eq);
    var rest := Filter(o, NotContainedIn(s, eq));
    DistinctFromAppend([], s, other, eq);
    assert [] + d == d;
    assert Distinct(s + other, eq) == d + DistinctFrom(d, other, eq);
    DistinctContainsSame(s, eq);
    DistinctFromCongruent(d, s, other, eq);
    DistinctFromExtraKept(s, [], other, eq);
    assert s + [] == s;
    assert DistinctFrom(d, other, eq) == rest;
    DistinctIdempotent(other, eq);
    assert Except(o, s, eq) == rest;
  }

  // ---------------------------------------------------------------------
  // Key variants
  // ---------------------------------------------------------------------

  /**
   * The keyed `distinct`/`except` generator: `seen` is the dictionary of
   * keys already recorded; an element is handed out iff recording its key
   * finds no previous entry.
   */
  function DistinctKeysFrom<T, K(==)>(seen: set<K>, s: seq<T>, key: T -> K): (r: seq<T>)
    ensures KeysDistinct(r, key)
    ensures KeysOf(r, key) == KeysOf(s, key) - seen
    ensures forall i :: (0 <= i < |s| && key(s[i]) !in seen
                         && (forall j :: 0 <= j < i ==> key(s[j]) != key(s[i]))) ==> s[i] in r
    decreases |s|
  {
    if |s| == 0 then []
    else
      var k := key(s[0]);
      KeysOfAppend([s[0]], s[1..], key);
      assert s == [s[0]] + s[1..];
      assert KeysOf([s[0]], key) == {k};
      assert forall i :: 1 <= i < |s| ==> s[i] == s[1..][i - 1];
      if k in seen then DistinctKeysFrom(seen, s[1..], key)
      else
        var rest := DistinctKeysFrom(seen + {k}, s[1..], key);
        KeysOfAppend([s[0]], rest, key);
        assert forall j :: 0 <= j < |rest| ==> key(rest[j]) in KeysOf(rest, key);
        [s[0]] + rest
  }

  /** What the keyed generator hands out is a subsequence of its source. */
  lemma {:induction false} DistinctKeysFromSubsequence<T, K>(seen: set<K>, s: seq<T>, key: T -> K)
    ensures IsSubsequence(DistinctKeysFrom(seen, s, key), s)
    decreases |s|
  {
    if |s| > 0 {
      var k := key(s[0]);
      if k in seen {
        DistinctKeysFromSubsequence(seen, s[1..], key);
      } else {
        var rest := DistinctKeysFrom(seen + {k}, s[1..], key);
        DistinctKeysFromSubsequence(seen + {k}, s[1..], key);
        assert ([s[0]] + rest)[1..] == rest;
      }
    }
  }

  /**
   * `distinct(key)`: the first element of each key, in source order; keys
   * are pairwise distinct and every source key is represented.
   */
  function DistinctByKey<T, K(==)>(s: seq<T>, key: T -> K): (r: seq<T>)
    ensures IsSubsequence(r, s)
    ensures KeysDistinct(r, key)
    ensures KeysOf(r, key) == KeysOf(s, key)
    ensures forall i :: 0 <= i < |s| && (forall j :: 0 <= j < i ==> key(s[j]) != key(s[i])) ==> s[i] in r
  {
    DistinctKeysFromSubsequence({}, s, key);
    DistinctKeysFrom({}, s, key)
  }

  /** The keys of `other`, as the source records them: the domain of a `toDictionary` to `true`. */
  function KeyTable<T, K(==)>(other: seq<T>, key: T -> K): (ks: set<K>)
    ensures ks == KeysOf(other, key)
  {
    ToDictionary(other, x => (key(x), true)).Keys
  }

  /**
   * `except(sequence, key)`: the dictionary starts with the keys of `other`,
   * so the first element of each key of `s` absent from `other` is handed out.
   */
  function ExceptByKey<T, K(==)>(s: seq<T>, other: seq<T>, key: T -> K): (r: seq<T>)
    ensures KeysDistinct(r, key)
    ensures KeysOf(r, key) == KeysOf(s, key) - KeysOf(other, key)
  {
    DistinctKeysFrom(KeyTable(other, key), s, key)
  }

  /**
   * The keyed `intersect` generator: `available` holds the keys of `other`
   * not yet consumed; an element is handed out iff removing its key finds it.
   */
  function IntersectKeysFrom<T, K(==)>(available: set<K>, s: seq<T>, key: T -> K): (r: seq<T>)
    ensures forall i :: 0 <= i < |r| ==> key(r[i]) in available
    decreases |s|
  {
    if |s| == 0 then []
    else if key(s[0]) in available then [s[0]] + IntersectKeysFrom(available - {key(s[0])}, s[1..], key)
    else IntersectKeysFrom(available, s[1..], key)
  }

  /** `intersect(sequence, key)`: each key of `other` authorises at most one element of `s`. */
  function IntersectByKey<T, K(==)>(s: seq<T>, other: seq<T>, key: T -> K): (r: seq<T>)
    ensures forall i :: 0 <= i < |r| ==> key(r[i]) in KeysOf(other, key)
  {
    IntersectKeysFrom(KeyTable(other, key), s, key)
  }

  /** Recording extra keys up front filters out exactly the elements with those keys. */
  lemma {:induction false} DistinctKeysFromExtraSeen<T, K>(seen: set<K>, extra: set<K>, s: seq<T>, key: T -> K)
    ensures DistinctKeysFrom(seen + extra, s, key) == Filter(DistinctKeysFrom(seen, s, key), KeyNotIn(key, extra))
    decreases |s|
  {
    if |s| > 0 {
      var k := key(s[0]);
      if k in seen {
        DistinctKeysFromExtraSeen(seen, extra, s[1..], key);
      } else {
        DistinctKeysFromExtraSeen(seen + {k}, extra, s[1..], key);
        assert seen + {k} + extra == seen + extra + {k};
        if k in extra {
          assert seen + extra + {k} == seen + extra;
        }
      }
    }
  }

  /** Consuming keys as they match filters in exactly the first occurrences with keys in the table. */
  lemma {:induction false} IntersectKeysFromIsFiltered<T, K>(seen: set<K>, table: set<K>, s: seq<T>, key: T -> K)
    ensures IntersectKeysFrom(table - seen, s, key) == Filter(DistinctKeysFrom(seen, s, key), KeyIn(key, table))
    decreases |s|
  {
    if |s| > 0 {
      var k := key(s[0]);
      if k in seen {
        IntersectKeysFromIsFiltered(seen, table, s[1..], key);
      } else {
        IntersectKeysFromIsFiltered(seen + {k}, table, s[1..], key);
        if k in table {
          assert table - seen - {k} == table - (seen + {k});
        } else {
          assert table - seen == table - (seen + {k});
        }
      }
    }
  }

  /** Keyed `except` is `distinct(key)` filtered by "key absent from other". */
  lemma ExceptByKeyIsFilteredDistinct<T, K>(s: seq<T>, other: seq<T>, key: T -> K)
    ensures ExceptByKey(s, other, key) == Filter(DistinctByKey(s, key), KeyNotIn(key, KeysOf(other, key)))
  {
    DistinctKeysFromExtraSeen({}, KeysOf(other, key), s, key);
    assert {} + KeysOf(other, key) == KeysOf(other, key);
  }

  /** Keyed `intersect` is `distinct(key)` filtered by "key present in other". */
  lemma IntersectByKeyIsFilteredDistinct<T, K>(s: seq<T>, other: seq<T>, key: T -> K)
    ensures IntersectByKey(s, other, key) == Filter(DistinctByKey(s, key), KeyIn(key, KeysOf(other, key)))
  {
    IntersectKeysFromIsFiltered({}, KeysOf(other, key), s, key);
    assert KeysOf(other, key) - {} == KeysOf(other, key);
  }

  /** Keyed `except` and `intersect` split `distinct(key)` between them. */
  lemma ExceptIntersectByKeyPartition<T, K>(s: seq<T>, other: seq<T>, key: T -> K)
    ensures |ExceptByKey(s, other, key)| + |IntersectByKey(s, other, key)| == |DistinctByKey(s, key)|
  {
    ExceptByKeyIsFilteredDistinct(s, other, key);
    IntersectByKeyIsFilteredDistinct(s, other, key);
    FilterPartition(DistinctByKey(s, key), KeyNotIn(key, KeysOf(other, key)), KeyIn(key, KeysOf(other, key)));
  }

  /** A sequence with pairwise distinct keys, none of them seen, passes unchanged. */
  lemma {:induction false} DistinctKeysFromFixes<T, K>(seen: set<K>, d: seq<T>, key: T -> K)
    requires KeysDistinct(d, key)
    requires forall i :: 0 <= i < |d| ==> key(d[i]) !in seen
    ensures DistinctKeysFrom(seen, d, key) == d
    decreases |d|
  {
    if |d| > 0 {
      forall i | 0 <= i < |d[1..]|
        ensures key(d[1..][i]) !in seen + {key(d[0])}
      {
        assert d[1..][i] == d[i + 1];
      }
      assert KeysDistinct(d[1..], key) by {
        forall i, j | 0 <= i < j < |d[1..]|
          ensures key(d[1..][i]) != key(d[1..][j])
        {
          assert d[1..][i] == d[i + 1] && d[1..][j] == d[j + 1];
        }
      }
      DistinctKeysFromFixes(seen + {key(d[0])}, d[1..], key);
      assert d == [d[0]] + d[1..];
    }
  }

  /** `distinct(key)` is idempotent. */
  lemma DistinctByKeyIdempotent<T, K>(s: seq<T>, key: T -> K)
    ensures DistinctByKey(DistinctByKey(s, key), key) == DistinctByKey(s, key)
  {
    DistinctKeysFromFixes({}, DistinctByKey(s, key), key);
  }

  /**
   * `union(sequence, key)`: `distinct(key)` of `s`, then `distinct(key)` of
   * `other` except the keys of `s`; every key of either side appears exactly once.
   */
  function UnionByKey<T, K(==)>(s: seq<T>, other: seq<T>, key: T -> K): (r: seq<T>)
    ensures KeysDistinct(r, key)
    ensures KeysOf(r, key) == KeysOf(s, key) + KeysOf(other, key)
  {
    var head := DistinctByKey(s, key);
    var tail := ExceptByKey(DistinctByKey(other, key), s, key);
    var r := head + tail;
    KeysOfAppend(head, tail, key);
    KeysDistinctAppend(head, tail, key);
    r
  }

  /**
   * The keyed generator over `a + b` hands out what it hands out for `a`,
   * then what it hands out for `b` with `a`'s keys recorded as well.
   */
  lemma {:induction false} DistinctKeysFromAppend<T, K>(seen: set<K>, a: seq<T>, b: seq<T>, key: T -> K)
    ensures DistinctKeysFrom(seen, a + b, key)
         == DistinctKeysFrom(seen, a, key) + DistinctKeysFrom(seen + KeysOf(a, key), b, key)
    decreases |a|
  {
    if |a| == 0 {
      assert a + b == b && KeysOf(a, key) == {} && seen + {} == seen;
    } else {
      var k := key(a[0]);
      assert (a + b)[0] == a[0] && (a + b)[1..] == a[1..] + b;
      KeysOfAppend([a[0]], a[1..], key);
      assert a == [a[0]] + a[1..];
      assert KeysOf([a[0]], key) == {k};
      if k in seen {
        DistinctKeysFromAppend(seen, a[1..], b, key);
        assert seen + KeysOf(a, key) == seen + KeysOf(a[1..], key);
      } else {
        DistinctKeysFromAppend(seen + {k}, a[1..], b, key);
        assert seen + {k} + KeysOf(a[1..], key) == seen + KeysOf(a, key);
      }
    }
  }

  /**
   * First occurrences win: extending the source by `x` extends
   * `distinct(key)` by `x` exactly when `x`'s key has not occurred yet.
   */
  lemma DistinctByKeySnoc<T, K>(s: seq<T>, x: T, key: T -> K)
    ensures DistinctByKey(s + [x], key) == DistinctByKey(s, key) + (if key(x) in KeysOf(s, key) then [] else [x])
  {
    DistinctKeysFromAppend({}, s, [x], key);
    assert {} + KeysOf(s, key) == KeysOf(s, key);
    assert [x][1..] == [];
  }

  /** Keyed `union` is `distinct(key)` of the concatenation: the first element of each key across both. */
  lemma UnionByKeyIsDistinctOfConcat<T, K>(s: seq<T>, other: seq<T>, key: T -> K)
    ensures UnionByKey(s, other, key) == DistinctByKey(s + other, key)
  {
    var ks := KeysOf(s, key);
    DistinctKeysFromAppend({}, s, other, key);
    assert {} + ks == ks;
    DistinctKeysFromExtraSeen({}, ks, DistinctByKey(other, key), key);
    DistinctByKeyIdempotent(other, key);
    DistinctKeysFromExtraSeen({}, ks, other, key);
  }
}
