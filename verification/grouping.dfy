/**
 * `groupBy`, `join` and `groupJoin`: each first builds a dictionary from a
 * key to the list of elements with that key (in enumeration order), then
 * emits from it.
 */
module Grouping {
  import opened Seqs

  /** `Grouping<K, V>`: a key and the members filed under it. */
  datatype Grouping<K, V> = Grouping(key: K, values: seq<V>)

  /**
   * The key-to-list dictionary: every element is appended to the list of its
   * key, a new list being started for a key not seen before.
   */
  function GroupTable<T, K(==)>(s: seq<T>, key: T -> K): map<K, seq<T>>
    decreases |s|
  {
    if |s| == 0 then map[]
    else
      var t := GroupTable(s[..|s| - 1], key);
      var e := s[|s| - 1];
      if key(e) in t then t[key(e) := t[key(e)] + [e]] else t[key(e) := [e]]
  }

  /**
   * The dictionary has an entry for exactly the keys that occur, and the
   * entry for a key lists the elements with that key in source order (so it
   * is never empty).
   */
  lemma {:induction false} GroupTableContents<T, K>(s: seq<T>, key: T -> K)
    ensures GroupTable(s, key).Keys == KeysOf(s, key)
    ensures forall k :: k in GroupTable(s, key) ==>
              GroupTable(s, key)[k] == Filter(s, KeyIs(key, k)) && |GroupTable(s, key)[k]| > 0
    decreases |s|
  {
    if |s| > 0 {
      var init := s[..|s| - 1];
      var e := s[|s| - 1];
      var k := key(e);
      var t := GroupTable(init, key);
      var t' := GroupTable(s, key);
      GroupTableContents(init, key);
      assert s == init + [e];
      KeysOfAppend(init, [e], key);
      assert KeysOf([e], key) == {k};
      forall k' | k' in t'
        ensures t'[k'] == Filter(s, KeyIs(key, k')) && |t'[k']| > 0
      {
        FilterAppend(init, [e], KeyIs(key, k'));
        if k' == k {
          if k !in t {
            FilterEmpty(init, KeyIs(key, k));
          }
        } else {
          assert Filter([e], KeyIs(key, k')) == [];
        }
      }
    }
  }

  /** A key with no elements has no members. */
  lemma NoMembersOutsideTable<T, K>(s: seq<T>, key: T -> K, k: K)
    requires k !in GroupTable(s, key)
    ensures Filter(s, KeyIs(key, k)) == []
  {
    GroupTableContents(s, key);
    FilterEmpty(s, KeyIs(key, k));
  }

  /** The groups emitted for the keys in `keyOrder`, in that order. */
  function EmitGroups<T, K, V>(table: map<K, seq<T>>, keyOrder: seq<K>, element: T -> V): (r: seq<Grouping<K, V>>)
    requires forall i :: 0 <= i < |keyOrder| ==> keyOrder[i] in table
    ensures |r| == |keyOrder|
    ensures forall i :: 0 <= i < |r| ==> r[i] == Grouping(keyOrder[i], Map(table[keyOrder[i]], element))
    decreases |keyOrder|
  {
    if |keyOrder| == 0 then []
    else [Grouping(keyOrder[0], Map(table[keyOrder[0]], element))] + EmitGroups(table, keyOrder[1..], element)
  }

  /** The keys a listing mentions. */
  ghost function Listed<K>(keys: seq<K>): set<K> {
    set i | 0 <= i < |keys| :: keys[i]
  }

  /** A listing mentions its head and what its tail mentions, and nothing else. */
  lemma ListedCons<K>(keys: seq<K>)
    requires |keys| > 0
    ensures Listed(keys) == Listed(keys[1..]) + {keys[0]}
    ensures (forall i :: 1 <= i < |keys| ==> keys[i] != keys[0]) ==> keys[0] !in Listed(keys[1..])
  {
    var rest := keys[1..];
    forall k | k in Listed(keys) ensures k in Listed(rest) + {keys[0]} {
      var i :| 0 <= i < |keys| && keys[i] == k;
      if i > 0 { assert rest[i - 1] == k; }
    }
    forall k | k in Listed(rest) ensures k in Listed(keys) {
      var i :| 0 <= i < |rest| && rest[i] == k;
      assert keys[i + 1] == k;
    }
  }

  /**
   * `groupBy(key, element)`: one `Grouping` per distinct key, whose values
   * are the projected elements with that key, in source order. The groups
   * come out in the dictionary's key order, which Swift leaves unspecified;
   * `keyOrder` stands for it: any duplicate-free listing of the keys.
   */
  function GroupBy<T, K(==), V>(s: seq<T>, key: T -> K, element: T -> V, keyOrder: seq<K>): (r: seq<Grouping<K, V>>)
    requires forall i, j :: 0 <= i < j < |keyOrder| ==> keyOrder[i] != keyOrder[j]
    requires Listed(keyOrder) == KeysOf(s, key)
    ensures |r| == |KeysOf(s, key)|
    ensures forall i, j :: 0 <= i < j < |r| ==> r[i].key != r[j].key
    ensures forall i :: 0 <= i < |r| ==> r[i].key in KeysOf(s, key)
    ensures forall i :: 0 <= i < |r| ==> r[i].values == Map(Filter(s, KeyIs(key, r[i].key)), element)
    ensures forall i :: 0 <= i < |r| ==> |r[i].values| > 0
  {
    var table := GroupTable(s, key);
    DistinctListingSize(keyOrder);
    GroupedTableEntries(s, key, element, keyOrder);
    EmitGroups(table, keyOrder, element)
  }

  /** Emitting a listing of the occurring keys yields each key's members, projected. */
  lemma GroupedTableEntries<T, K, V>(s: seq<T>, key: T -> K, element: T -> V, keyOrder: seq<K>)
    requires Listed(keyOrder) == KeysOf(s, key)
    ensures forall i :: 0 <= i < |keyOrder| ==> keyOrder[i] in KeysOf(s, key) && keyOrder[i] in GroupTable(s, key)
    ensures forall i :: 0 <= i < |keyOrder| ==>
              Map(GroupTable(s, key)[keyOrder[i]], element) == Map(Filter(s, KeyIs(key, keyOrder[i])), element)
              && |GroupTable(s, key)[keyOrder[i]]| > 0
  {
    GroupTableContents(s, key);
    forall i | 0 <= i < |keyOrder| ensures keyOrder[i] in KeysOf(s, key) {
      assert keyOrder[i] in Listed(keyOrder);
    }
  }

  /** A duplicate-free listing has as many entries as the set it lists. */
  lemma {:induction false} DistinctListingSize<K>(keys: seq<K>)
    requires forall i, j :: 0 <= i < j < |keys| ==> keys[i] != keys[j]
    ensures |Listed(keys)| == |keys|
    decreases |keys|
  {
    if |keys| > 0 {
      DistinctListingSize(keys[1..]);
      ListedCons(keys);
    } else {
      assert Listed(keys) == {};
    }
  }

  /** The members of a list of groups, group after group. */
  function Members<K, V>(groups: seq<Grouping<K, V>>): seq<V>
    decreases |groups|
  {
    if |groups| == 0 then [] else groups[0].values + Members(groups[1..])
  }

  /** The groups emitted for a duplicate-free key listing hold the elements with those keys. */
  lemma {:induction false} EmittedMembers<T, K, V>(s: seq<T>, key: T -> K, element: T -> V, keyOrder: seq<K>)
    requires forall i, j :: 0 <= i < j < |keyOrder| ==> keyOrder[i] != keyOrder[j]
    requires forall i :: 0 <= i < |keyOrder| ==> keyOrder[i] in GroupTable(s, key)
    ensures multiset(Members(EmitGroups(GroupTable(s, key), keyOrder, element)))
         == multiset(Map(Filter(s, KeyIn(key, Listed(keyOrder))), element))
    decreases |keyOrder|
  {
    var table := GroupTable(s, key);
    if |keyOrder| == 0 {
      assert Listed(keyOrder) == {};
      FilterEmpty(s, KeyIn(key, Listed(keyOrder)));
    } else {
      var rest := keyOrder[1..];
      EmittedMembers(s, key, element, rest);
      ListedCons(keyOrder);
      GroupTableContents(s, key);
      var groups := EmitGroups(table, keyOrder, element);
      assert groups[1..] == EmitGroups(table, rest, element);
      assert groups[0].values == Map(Filter(s, KeyIs(key, keyOrder[0])), element);
      MappedFiltersJoin(s, KeyIs(key, keyOrder[0]), KeyIn(key, Listed(rest)), KeyIn(key, Listed(keyOrder)), element);
    }
  }

  /**
   * The groups of `groupBy` partition the source: their members, taken group
   * after group, are a permutation of the projected source.
   */
  lemma GroupByPartition<T, K, V>(s: seq<T>, key: T -> K, element: T -> V, keyOrder: seq<K>)
    requires forall i, j :: 0 <= i < j < |keyOrder| ==> keyOrder[i] != keyOrder[j]
    requires Listed(keyOrder) == KeysOf(s, key)
    ensures multiset(Members(GroupBy(s, key, element, keyOrder))) == multiset(Map(s, element))
  {
    GroupTableContents(s, key);
    EmittedMembers(s, key, element, keyOrder);
    FilterAll(s, KeyIn(key, KeysOf(s, key)));
  }

  /** `result(x, ·)` for a fixed outer element `x`. */
  function PairWith<T, U, R>(result: (T, U) -> R, x: T): U -> R {
    y => result(x, y)
  }

  /** The join output contributed by the outer elements `outer`, read off the inner dictionary. */
  function JoinWith<T, U, K, R>(outer: seq<T>, table: map<K, seq<U>>, outerKey: T -> K, result: (T, U) -> R): seq<R>
    decreases |outer|
  {
    if |outer| == 0 then []
    else
      var k := outerKey(outer[0]);
      (if k in table then Map(table[k], PairWith(result, outer[0])) else [])
        + JoinWith(outer[1..], table, outerKey, result)
  }

  /**
   * The reference inner join: for each outer element in order, the result
   * with every inner element of the same key, in inner order.
   */
  ghost function InnerJoin<T, U, K, R>(outer: seq<T>, inner: seq<U>, outerKey: T -> K, innerKey: U -> K, result: (T, U) -> R): seq<R>
    decreases |outer|
  {
    if |outer| == 0 then []
    else Map(Filter(inner, KeyIs(innerKey, outerKey(outer[0]))), PairWith(result, outer[0]))
           + InnerJoin(outer[1..], inner, outerKey, innerKey, result)
  }

  /** Reading the inner dictionary off for each outer element gives the reference inner join. */
  lemma {:induction false} JoinWithIsInnerJoin<T, U, K, R>(outer: seq<T>, inner: seq<U>, outerKey: T -> K, innerKey: U -> K, result: (T, U) -> R)
    ensures JoinWith(outer, GroupTable(inner, innerKey), outerKey, result) == InnerJoin(outer, inner, outerKey, innerKey, result)
    decreases |outer|
  {
    if |outer| > 0 {
      JoinWithIsInnerJoin(outer[1..], inner, outerKey, innerKey, result);
      var k := outerKey(outer[0]);
      GroupTableContents(inner, innerKey);
      if k !in GroupTable(inner, innerKey) {
        NoMembersOutsideTable(inner, innerKey, k);
      }
    }
  }

  /**
   * `join(inner, outerKey, innerKey, result)`: the reference inner join, so
   * unmatched outer elements contribute nothing.
   */
  function Join<T, U, K(==), R>(outer: seq<T>, inner: seq<U>, outerKey: T -> K, innerKey: U -> K, result: (T, U) -> R): (r: seq<R>)
    ensures r == InnerJoin(outer, inner, outerKey, innerKey, result)
  {
    JoinWithIsInnerJoin(outer, inner, outerKey, innerKey, result);
    JoinWith(outer, GroupTable(inner, innerKey), outerKey, result)
  }

  /** Every pair produced by the reference inner join matches on the key. */
  lemma {:induction false} InnerJoinPairsMatch<T, U, K>(outer: seq<T>, inner: seq<U>, outerKey: T -> K, innerKey: U -> K)
    ensures forall p :: p in InnerJoin(outer, inner, outerKey, innerKey, (x: T, y: U) => (x, y))
              ==> innerKey(p.1) == outerKey(p.0)
    decreases |outer|
  {
    if |outer| > 0 {
      InnerJoinPairsMatch(outer[1..], inner, outerKey, innerKey);
      var matches := Filter(inner, KeyIs(innerKey, outerKey(outer[0])));
      assert forall i :: 0 <= i < |matches| ==> innerKey(matches[i]) == outerKey(outer[0]);
    }
  }

  /** `join` pairs only elements with equal keys. */
  lemma JoinPairsMatch<T, U, K>(outer: seq<T>, inner: seq<U>, outerKey: T -> K, innerKey: U -> K)
    ensures forall p :: p in Join(outer, inner, outerKey, innerKey, (x: T, y: U) => (x, y))
              ==> innerKey(p.1) == outerKey(p.0)
  {
    InnerJoinPairsMatch(outer, inner, outerKey, innerKey);
  }

  /** The matched inner list for an outer key: the dictionary entry, or an empty list. */
  function MatchesIn<U, K>(table: map<K, seq<U>>, k: K): seq<U> {
    if k in table then table[k] else []
  }

  /**
   * `groupJoin(inner, outerKey, innerKey, result)`: exactly one result per
   * outer element, given the (possibly empty) list of matching inner elements.
   */
  function GroupJoin<T, U, K(==), R>(outer: seq<T>, inner: seq<U>, outerKey: T -> K, innerKey: U -> K, result: (T, seq<U>) -> R): (r: seq<R>)
    ensures |r| == |outer|
    ensures forall i :: 0 <= i < |outer| ==> r[i] == result(outer[i], Filter(inner, KeyIs(innerKey, outerKey(outer[i]))))
  {
    var table := GroupTable(inner, innerKey);
    GroupTableContents(inner, innerKey);
    assert forall i | 0 <= i < |outer| :: outerKey(outer[i]) !in table ==> Filter(inner, KeyIs(innerKey, outerKey(outer[i]))) == [] by {
      forall i | 0 <= i < |outer| && outerKey(outer[i]) !in table {
        NoMembersOutsideTable(inner, innerKey, outerKey(outer[i]));
      }
    }
    Map(outer, x => result(x, MatchesIn(table, outerKey(x))))
  }
}
