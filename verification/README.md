# SINQ query operators in Dafny

SINQ is a Swift library of LINQ-style query operators over sequences. A
`SinqSequence<T>` wraps a sequence (`_seq`). Its operators are:

- **Lazy operators** build a new lazy `SinqSequence`: `select`, `selectMany`, `whereTrue`, `take`, `skip`, `takeWhile`, `skipWhile`, `concat`, `zip`, `reverse`, `distinct`, `except`, `intersect`, `union`, `groupBy`, `join`, `groupJoin`.
- **Terminal operators** pull the sequence and return a value: `count`, `all`, `any`, `contains`, `first…`, `last…`, `elementAt…`, `reduce`, `min`/`max`, `argmin`/`argmax`, `toDictionary`.

`SinqOrderedSequence` is a subclass. It carries a chain of comparators and overrides `generate()`, so every enumeration sorts a snapshot of the wrapped sequence. It also overrides `orderBy`, `orderByDescending`, `thenBy`, `thenByDescending` and `whereTrue`, each of which reads the wrapped sequence rather than `generate()`.

This project models that core in Dafny:

- **The full enumeration.** Each operator is a pure function from the enumeration of its input(s) to the enumeration of its result. Sequences are `seq<T>`.
- **Forced unwraps.** `first()`, `elementAt(i)` and `reduce(combine)` unwrap an optional. Each becomes a precondition. The `OrNil` forms return `Option`.
- **Generator state.** The stateful generators of `join`, `selectMany`, `take`, `takeWhile`, `skipWhile` and `skip` are also modelled pull by pull, as cursors (module `Cursors`). Each drain is proved to produce exactly the functional result.

Modules:

| module | contents |
|---|---|
| `Optional` | Swift's `T?` |
| `Seqs` | shared sequence vocabulary: filter, map, flatten, left fold, key sets, subsequences |
| `Transforms` | element-wise and positional operators |
| `Terminals` | operators that consume the sequence |
| `SetOps` | `distinct`, `except`, `intersect`, `union`, in their equality-function and key forms |
| `Grouping` | `groupBy`, `join`, `groupJoin` and their shared key-to-list dictionary |
| `Ordering` | the comparator chain, ordered sequences, the seeded-reduce discrepancy |
| `Cursors` | generator closures, one call at a time |
| `Examples` | the scenarios of the repository's test suite, worked out on the model |

Every comparator arises from `orderBy`/`thenBy` (`key($0) < key($1)`) or from their descending forms (`key($0) > key($1)`). A comparator is therefore modelled as `Ascending(key)` or `Descending(key)`, with `int`-valued keys standing for `Comparable` ones.

## Model

| member | source | states |
|---|---|---|
| Terminals.Count | SINQ/SINQ.swift:117-124 | the count is the number of elements enumerated |
| Terminals.All | SINQ/SINQ.swift:60-67 | true exactly when every element satisfies the predicate |
| Terminals.AnyElement | SINQ/SINQ.swift:69-72 | true exactly when the sequence is non-empty |
| Terminals.Any | SINQ/SINQ.swift:74-81 | true exactly when some element satisfies the predicate |
| Terminals.AnyIsNotAllNot | SINQ/SINQ.swift:60-81 | `any(p)` is the negation of `all` of the complement predicate |
| Terminals.Contains | SINQ/SINQ.swift:100-107 | true exactly when some element `e` has `equality(e, value)` |
| Terminals.ContainsByKey | SINQ/SINQ.swift:109-111 | true exactly when the key of `value` is among the keys of the elements |
| Terminals.FirstMatchOrNil | SINQ/SINQ.swift:248-256 | nil exactly when no element matches; otherwise the earliest matching element, with no match before it |
| Terminals.FirstOrNil | SINQ/SINQ.swift:232-235 | nil exactly on the empty sequence; otherwise the element at position 0 |
| Terminals.FirstOrNilIsFirstMatch | SINQ/SINQ.swift:232-256 | the predicate-free `firstOrNil` is the predicate form with an always-true predicate |
| Terminals.First | SINQ/SINQ.swift:228-230 | on a non-empty sequence, the value `firstOrNil` wraps |
| Terminals.FirstMatch | SINQ/SINQ.swift:244-246 | when a match exists, a matching member of the sequence, the one `firstOrNil(predicate)` wraps |
| Terminals.FirstOrDefault | SINQ/SINQ.swift:237-242 | the default on the empty sequence, else the first element |
| Terminals.FirstMatchOrDefault | SINQ/SINQ.swift:258-263 | the default exactly when nothing matches, which is when `firstOrNil(predicate)` is nil; otherwise the earliest matching element, the one `firstOrNil(predicate)` wraps |
| Terminals.LastMatchOrNil | SINQ/SINQ.swift:457-466 | nil exactly when no element matches; otherwise the latest matching element, with no match after it |
| Terminals.LastMatchIsFirstMatchOfReverse | SINQ/SINQ.swift:457-466 | the last match is the first match of the reversed sequence |
| Terminals.LastOrNil | SINQ/SINQ.swift:475-482 | nil exactly on the empty sequence; otherwise the final element |
| Terminals.Last | SINQ/SINQ.swift:484-486 | on a non-empty sequence, the final element |
| Terminals.LastMatch | SINQ/SINQ.swift:453-455 | when a match exists, a matching member, the one `lastOrNil(predicate)` wraps |
| Terminals.LastOrDefault | SINQ/SINQ.swift:488-493 | the default on the empty sequence, else the final element |
| Terminals.LastMatchOrDefault | SINQ/SINQ.swift:468-473 | the default exactly when nothing matches, which is when `lastOrNil(predicate)` is nil; otherwise the latest matching element, the one `lastOrNil(predicate)` wraps |
| Terminals.ElementAtOrNil | SINQ/SINQ.swift:162-171 | an element exactly when `0 <= index < count`, and then the element at that position |
| Terminals.ElementAt | SINQ/SINQ.swift:173-175 | for an index in range, the value `elementAtOrNil` wraps |
| Terminals.ElementAtOrDefault | SINQ/SINQ.swift:177-182 | the default for a negative or too-large index, else the element at the index |
| Terminals.Reduce | SINQ/SINQ.swift:43-50 | on a non-empty sequence, the left fold of the tail seeded with the first element |
| Terminals.SeedlessReduceOfPrepended | SINQ/SINQ.swift:43-58 | the seedless `reduce` run on the seed followed by the source returns the seeded left fold, so the two `reduce` forms agree |
| Terminals.Max | SINQ/SINQ.swift:495-504 | a key attained by some element and at least every element's key |
| Terminals.Min | SINQ/SINQ.swift:506-515 | a key attained by some element and at most every element's key |
| Terminals.ArgMax | SINQ/SINQ.swift:517-529 | an element whose key is maximal, with every earlier element's key strictly smaller, so the first maximum wins |
| Terminals.ArgMin | SINQ/SINQ.swift:531-543 | an element whose key is minimal, with every earlier element's key strictly larger |
| Terminals.ExtremeKeysAgree | SINQ/SINQ.swift:495-543 | `max(key)` is the key of `argmax(key)`, and likewise for the minimum |
| Terminals.ToDictionary | SINQ/SINQ.swift:707-717 | the keys are exactly the produced keys; an element that is the last with its key determines that key's value |
| Terminals.ToDictionaryBy | SINQ/SINQ.swift:719-728 | the keys are the element keys; the last element with a key supplies its value |
| Terminals.ToDictionaryByKey | SINQ/SINQ.swift:730-739 | the keys are the element keys; the last element with a key is stored under it |
| Transforms.SelectFrom | SINQ/SINQ.swift:565-576 | same length; position `i` holds `selector(element i, start + i)` |
| Transforms.Select | SINQ/SINQ.swift:561-576 | same length; position `i` holds `selector(element i, i)` |
| Transforms.SelectManyFromIsFlattenedSelect | SINQ/SINQ.swift:586-608 | from any counter value, the generator's output is the in-order flattening of the counter-indexed inner sequences mapped through `result`; an empty inner sequence contributes nothing but still advances the counter |
| Transforms.SelectMany | SINQ/SINQ.swift:586-608 | `selectMany(selector, result)` is the in-order flattening of the indexed `select`, counting from zero, of the inner sequences mapped through `result` |
| Transforms.Concat | SINQ/SINQ.swift:83-98 | all of the first sequence, then all of the second, neither reordered |
| Transforms.Zip | SINQ/SINQ.swift:758-769 | as long as the shorter input; position `i` combines the two `i`-th elements |
| Transforms.Reverse | SINQ/SINQ.swift:555-559 | same length; position `i` holds the element `i` places from the end |
| Transforms.ReverseInvolution | SINQ/SINQ.swift:555-559 | reversing twice gives the original sequence |
| Transforms.Take | SINQ/SINQ.swift:656-669 | empty for a non-positive count, the first `count` elements when enough exist, else everything |
| Transforms.Skip | SINQ/SINQ.swift:624-632 | the elements after the first `count`, or nothing when fewer exist |
| Transforms.TakeSkipSplit | SINQ/SINQ.swift:624-669 | `take(n)` followed by `skip(n)` reassembles the source |
| Transforms.ConcatTakeSkip | SINQ/SINQ.swift:83-98 | taking and skipping the first part's length of a concatenation recovers both parts |
| Transforms.TakeWhile | SINQ/SINQ.swift:671-692 | a prefix of passing elements, followed in the source by a failing element or by the end |
| Transforms.SkipWhile | SINQ/SINQ.swift:634-652 | a suffix whose dropped prefix all passes, starting with a failing element when non-empty |
| Transforms.TakeWhileSkipWhileSplit | SINQ/SINQ.swift:634-692 | what `takeWhile` keeps and `skipWhile` keeps together reassemble the source |
| SetOps.DistinctFrom | SINQ/SINQ.swift:127-141 | no two results related; none related to an already-kept element; every input element is kept or related to a kept one |
| SetOps.Distinct | SINQ/SINQ.swift:127-141 | a subsequence with no two related elements that covers every source element up to the relation |
| SetOps.DistinctIdempotent | SINQ/SINQ.swift:127-141 | applying `distinct(equality)` twice is applying it once |
| SetOps.DistinctFromAppend | SINQ/SINQ.swift:127-141 | the pass over a concatenation is the pass over the first part followed by the pass over the second part, checked against everything kept so far |
| SetOps.DistinctSnoc | SINQ/SINQ.swift:127-141 | appending an element to the source appends it to `distinct` exactly when nothing already kept is related to it, so each kept element is the first of its kind and the output follows source order |
| SetOps.DistinctContainsSame | SINQ/SINQ.swift:127-141 | for a transitive equality, a value is related to some element of `distinct`'s output exactly when it is related to some element of the source |
| SetOps.Except | SINQ/SINQ.swift:185-201 | a subsequence of the source's `distinct(equality)` with no two results related, each result related to nothing in `other`, and every element of `distinct(equality)` related to nothing in `other` included |
| SetOps.Intersect | SINQ/SINQ.swift:363-379 | a subsequence of the source's `distinct(equality)` with no two results related, each result related to something in `other`, and every element of `distinct(equality)` related to something in `other` included |
| SetOps.ExceptIntersectPartition | SINQ/SINQ.swift:185-201 | every element of the source's `distinct(equality)` lies in exactly one of `except(other)` and `intersect(other)`, and their lengths add up to its length |
| SetOps.Union | SINQ/SINQ.swift:744-749 | no two results related; each comes from one of the inputs; every element of the first input appears or is related to a result |
| SetOps.UnionSize | SINQ/SINQ.swift:744-749 | the union holds the distinct first input plus the distinct second input minus the part related to the first |
| SetOps.UnionIsDistinctOfConcat | SINQ/SINQ.swift:744-749 | for a transitive equality, `union` equals `distinct(equality)` of the first input followed by the second |
| SetOps.DistinctKeysFrom | SINQ/SINQ.swift:143-156 | keys pairwise distinct; the key set is the source's minus the already-seen keys; each first occurrence of an unseen key is kept |
| SetOps.DistinctByKey | SINQ/SINQ.swift:143-156 | a subsequence of the source with pairwise distinct keys covering every source key, containing every element that is the first of its key |
| SetOps.DistinctByKeyIdempotent | SINQ/SINQ.swift:143-156 | applying `distinct(key)` twice is applying it once |
| SetOps.DistinctKeysFromAppend | SINQ/SINQ.swift:143-156 | the pass over a concatenation is the pass over the first part followed by the pass over the second part with the first part's keys added to the seen set |
| SetOps.DistinctByKeySnoc | SINQ/SINQ.swift:143-156 | appending an element to the source appends it to `distinct(key)` exactly when its key is new, so the output is the first element of each key, in source order |
| SetOps.KeyTable | SINQ/SINQ.swift:209 | the dictionary built from `other` has exactly `other`'s keys |
| SetOps.ExceptByKey | SINQ/SINQ.swift:203-219 | keys pairwise distinct; the key set is the source's keys minus `other`'s keys |
| SetOps.ExceptByKeyIsFilteredDistinct | SINQ/SINQ.swift:203-219 | keyed `except` equals the source's `distinct(key)` with the elements whose key occurs in `other` removed |
| SetOps.IntersectKeysFrom | SINQ/SINQ.swift:381-397 | every handed-out key was still available in the dictionary |
| SetOps.IntersectByKey | SINQ/SINQ.swift:381-397 | every result's key is a key of `other` |
| SetOps.IntersectByKeyIsFilteredDistinct | SINQ/SINQ.swift:381-397 | keyed `intersect` equals `distinct(key)` filtered by "key present in `other`", so each key of `other` admits one element |
| SetOps.ExceptIntersectByKeyPartition | SINQ/SINQ.swift:203-219 | keyed `except` and `intersect` split `distinct(key)` between them |
| SetOps.UnionByKey | SINQ/SINQ.swift:751-756 | keys pairwise distinct; the key set is the union of both inputs' key sets |
| SetOps.UnionByKeyIsDistinctOfConcat | SINQ/SINQ.swift:751-756 | keyed `union` equals `distinct(key)` of the first input followed by the second |
| Grouping.GroupTableContents | SINQ/SINQ.swift:276-286 | the dictionary `GroupTable` builds has an entry for exactly the occurring keys, each listing the elements of its key in source order, never empty |
| Grouping.EmitGroups | SINQ/SINQ.swift:288-297 | one grouping per listed key, holding the selected values of that key's dictionary entry |
| Grouping.GroupBy | SINQ/SINQ.swift:272-299 | one grouping per distinct key, keys pairwise distinct; each holds the selected values of the elements with its key, in source order, never empty |
| Grouping.GroupByPartition | SINQ/SINQ.swift:272-299 | the groupings' members together are a permutation of the selected source |
| Grouping.JoinWithIsInnerJoin | SINQ/SINQ.swift:418-436 | reading the inner dictionary for each outer element in turn, as `JoinWith` does, gives the reference inner join |
| Grouping.Join | SINQ/SINQ.swift:399-438 | `join` equals the reference inner join: each outer element paired with every inner element of equal key, in inner order, outer elements without a match contributing nothing |
| Grouping.JoinPairsMatch | SINQ/SINQ.swift:399-438 | every pair `join` produces has equal outer and inner keys |
| Grouping.GroupJoin | SINQ/SINQ.swift:312-347 | one result per outer element, computed from the inner elements of equal key, empty when none |
| Ordering.BeforeTrichotomy | SINQ/SINQ.swift:785-796 | the comparator closure is asymmetric, and neither order holds exactly when every comparator ties |
| Ordering.BeforeTransitive | SINQ/SINQ.swift:785-796 | the comparator closure is transitive |
| Ordering.NotBeforeTransitive | SINQ/SINQ.swift:785-796 | "not before" is transitive too, so the closure is a strict weak order |
| Ordering.Sort | SINQ/SINQ.swift:785-797 | the sorted snapshot is a permutation of the source and sorted under the chain |
| Ordering.Elements | SINQ/SINQ.swift:784-798 | an enumeration is a permutation of the wrapped sequence, sorted under the chain for an ordered sequence |
| Ordering.OrderBy | SINQ/SINQ.swift:545-548 | enumerating `orderBy(key)` yields a permutation of the enumeration, in ascending key order |
| Ordering.OrderByDescending | SINQ/SINQ.swift:550-553 | enumerating `orderByDescending(key)` yields a permutation of the enumeration, in descending key order |
| Ordering.OrderByReplacesChain | SINQ/SINQ.swift:807-815 | `orderBy` on an ordered sequence discards the previous chain |
| Ordering.ThenBy | SINQ/SINQ.swift:817-821 | a permutation of the enumeration; on an ordered sequence still sorted by the old chain and ascending by the new key among elements the old chain ties; on a plain sequence ascending by the key throughout |
| Ordering.ThenByDescending | SINQ/SINQ.swift:823-827 | a permutation of the enumeration; on an ordered sequence still sorted by the old chain and descending by the new key among elements the old chain ties; on a plain sequence descending by the key throughout |
| Ordering.ThenAppended | SINQ/SINQ.swift:785-796 | sorting under a chain with one more comparator stays sorted under the shorter chain and orders its ties by the added comparator |
| Ordering.ThenByOnPlainIsOrderBy | SINQ/SINQ.swift:695-701 | `thenBy` on an unordered sequence is `orderBy` |
| Ordering.WhereTrue | SINQ/SINQ.swift:829-832 | a permutation of the filtered enumeration; on an ordered sequence the chain is kept and the enumeration sorted under it; on a plain sequence exactly the filtered enumeration |
| Ordering.CollectingReduceEnumerates | SINQ/SINQ.swift:52-54 | the corrected seeded reduce, collecting into a list, reproduces the enumeration |
| Ordering.SeededReduceSeesUnsortedSource | SINQ/SINQ.swift:52-54 | as written, a collecting seeded reduce over `[2, 1]` ordered ascending gives `[2, 1]` although the enumeration is `[1, 2]` |
| Cursors.JoinNext | SINQ/SINQ.swift:423-436 | one generator call hands out exactly the next pair still owed, or nothing once nothing is owed |
| Cursors.JoinPullOuter | SINQ/SINQ.swift:427-435 | pulling outer elements until one has a group hands out exactly the next pair still owed, or nothing when no later outer element has a group |
| Cursors.JoinDrain | SINQ/SINQ.swift:399-438 | pulling the `join` generator dry yields exactly `join` |
| Cursors.ManyNext | SINQ/SINQ.swift:594-606 | one generator call hands out exactly the next element still owed, skipping empty inner sequences |
| Cursors.ManyPullOuter | SINQ/SINQ.swift:598-605 | pulling outer elements until one expands to a non-empty inner sequence hands out exactly the next element still owed, or nothing when none does |
| Cursors.SelectManyDrain | SINQ/SINQ.swift:586-608 | pulling the `selectMany` generator dry yields exactly `selectMany` |
| Cursors.TakeDrain | SINQ/SINQ.swift:656-669 | the drain yields `take(count)`; the parent is pulled at most `count` times, one past its end when it is shorter |
| Cursors.TakeWhileDrain | SINQ/SINQ.swift:671-692 | the drain yields `takeWhile(p)`, pulling the parent exactly once past the kept prefix |
| Transforms.TakeWhilePrefix | SINQ/SINQ.swift:671-692 | a passing prefix followed by a failing element or the end is exactly what `takeWhile` keeps |
| Cursors.SkipWhileDrain | SINQ/SINQ.swift:634-652 | the drain, which stops consulting the predicate after the first failure, yields `skipWhile(p)` |
| Transforms.SkipWhileFrom | SINQ/SINQ.swift:634-652 | dropping a passing prefix up to the first failing element is `skipWhile` |
| Cursors.SkipDrain | SINQ/SINQ.swift:624-632 | discarding `count` pulls, harmless past the end, and passing the rest yields `skip(count)` |
| Examples.ConcatExample | SINQTests/SINQTests.swift:24-30 | `[1,2,3]` concatenated with `[4,5,6]` enumerates 1 to 6 |
| Examples.FirstLastExample | SINQTests/SINQTests.swift:55-61 | first and last of `[42,1,2,3]` are 42 and 3; the empty sequence has none and yields the default |
| Examples.UnionExample | SINQTests/SINQTests.swift:196-204 | the union of `[1,2,1,2]` and `[3,2,1]` is `[1,2,3]` |
| Examples.GroupJoinExample | SINQTests/SINQTests.swift:70-79 | joining outer keys 0 and 1 against 1 to 5 by parity gives groups of two and three |
| Examples.HalfJoinSize | SINQ/SINQ.swift:399-438 | the reference inner join of a range of outer values against 0..2n on "outer is half of inner" holds two pairs for each outer value below n and none for the others |
| Examples.HalfJoin | SINQTests/SINQTests.swift:87-99 | joining 0..2n with itself on identity against halving gives 2n pairs, each inner value halving to its outer value |
| Examples.JoinExample | SINQTests/SINQTests.swift:87-99 | joining `0..10` with `0..10` on identity against halving gives 10 pairs, each inner value halving to its outer value |
| Examples.PrefixRangesSize | SINQ/SINQ.swift:586-608 | expanding each x of a range into `0..x` with `selectMany` yields as many elements as the sum of the range |
| Examples.SelectManyExample | SINQTests/SINQTests.swift:141-143 | `selectMany({ 0..$0 })` over `0..10` yields 45 elements |
| Examples.TakeSkipExample | SINQTests/SINQTests.swift:152-177 | `take(2)` of `0..10` is `[0,1]`, and `skip(2)` is `2..10` |
| Examples.TakeWhileSkipWhileExample | SINQTests/SINQTests.swift:161-186 | `takeWhile(< 6)` of `0..10` is `0..6`, and `skipWhile(< 5)` is `5..10` |
| Examples.TakeWhileBelow | SINQ/SINQ.swift:671-692 | on an ascending range, `takeWhile(x < m)` keeps exactly the part of the range below m |
| Examples.SkipWhileBelow | SINQ/SINQ.swift:634-652 | on an ascending range, `skipWhile(x < m)` resumes exactly at m |
| Examples.ReverseExample | SINQTests/SINQTests.swift:125-131 | `[1,2,3,4,5]` reversed enumerates 5 down to 1 |

## Left out

- **Swift plumbing.** The wrapping class, its initialisers, `generate()` of a plain sequence, `from`/`sinq`, and `Grouping`'s `Sequence` conformance (SINQ/SINQ.swift:16-29, 836-852) are represented only by `seq` and the `Sinq` datatype.
- **Aliases and overloads.** Operators that only forward to another are not modelled separately. These are:
  - `aggregate`, `map` and `filter`;
  - the element-less `groupBy(key)` (SINQ/SINQ.swift:265-270), the `groupBy` with a result selector, and `groupJoin`/`join` without a result selector;
  - the predicate-free `selectMany` and the non-indexed `select`/`selectMany`.

  Their target operator is modelled. The result-selector forms are the target composed with `select`.
- **Laziness and re-enumeration.** The model describes a full enumeration, so it does not cover:
  - infinite sources;
  - the number of times a closure is called;
  - re-running a generator factory.

  The cursor methods cover the pull-level behaviour that matters for `take`, `takeWhile`, `skipWhile`, `skip`, `join` and `selectMany`.
- **Dictionary enumeration order.** `groupBy` emits groups in the order of Swift's `Dictionary` keys, which is unspecified. `Grouping.GroupBy` takes that order as a parameter, required to list each key exactly once.
- Ordering.Sort: Swift's library `sort` is not part of this model. An insertion sort stands in for it, and only a sorted permutation is claimed. The order among tied elements, which the library does not promise, is left open.
- **Comparable keys.** `orderBy`, `thenBy`, `min`, `max`, `argmin` and `argmax` take `Comparable` keys. They are modelled as `int`-valued keys.
- **Integer width.** `count()` and the index counters of `select`/`selectMany` are Swift `Int`s. The model uses unbounded integers, so overflow past the 64-bit range is not modelled.
- Transforms.Skip: requires a non-negative count. For a negative count the loop `for _ in 0..count` forms a range whose end lies below its start; the behaviour of that range is not modelled. The same holds for `Cursors.SkipDrain`.
- **Unimplemented operators.** `single`, `sum` and `sequenceEqual` are only TODO comments in the source (SINQ/SINQ.swift:622, 654, 741) and have no model.
- **Ordering overrides of other operators.** `SinqOrderedSequence` overrides only `generate`, `orderBy`, `orderByDescending`, `thenBy`, `thenByDescending` and `whereTrue`; the five besides `generate` read the wrapped sequence and are modelled in `Ordering`. Every other operator except the two seeded `reduce` forms (see Findings) enumerates through `generate()`, so it sees `Ordering.Elements`. The model does not restate each operator over `Sinq`.
- SetOps.UnionIsDistinctOfConcat: stated only for transitive equality functions. For a non-transitive `equality`, `union` (each part made distinct, then `except`) and `distinct` of the concatenation can differ; there only `SetOps.Union`'s own contract is promised. The same restriction applies to `SetOps.DistinctContainsSame`.
- Terminals.ReduceWithResult: the result-selector form of the seeded reduce on a plain sequence carries no contract of its own. On ordered sequences it shares the discrepancy recorded under Findings.

## Findings

| source | as written | input that shows it | evidently intended | confidence | as-written member | corrected member |
|---|---|---|---|---|---|---|
| SINQ/SINQ.swift:52-58 | the seeded `reduce(initial, combine)` and its result-selector form fold `_seq`, which for a `SinqOrderedSequence` is the unsorted source; every other operator that reads the elements, including the seedless `reduce` (43-50), enumerates through the overridden `generate()` (784-798); only the five overrides `orderBy`, `orderByDescending`, `thenBy`, `thenByDescending` and `whereTrue` (807-832) also read `_seq`, and they rebuild an ordered sequence from it | `sinq([2, 1]).orderBy{ $0 }.reduce([], { $0 + [$1] })` yields `[2, 1]`, while enumerating the same sequence yields `[1, 2]` | fold the sorted enumeration, as `Swift.reduce(self, initial, combine)` would | medium, not executed | Ordering.ReduceSeededAsWritten | Ordering.ReduceSeeded |
