# kblib: direct_map, insertion sorts and fakestd utilities in Dafny

This project models three parts of the kblib C++ utility library and proves
what the library's tests and implementation promise about them.

- **`direct_map<char, V>`** (`direct_map.dfy`, with `presence.dfy`). This is an
  ordered map over the 256 values of a signed 8-bit `char`.
  - Every key owns a slot addressed by its ordinal, which is the key plus 128.
  - A presence array records which slots are live, and a counter caches their
    number.
  - The class `DirectMaps.DirectMap` keeps these as two arrays and a counter.
    Its methods change them in place and are specified against
    `Model()`, the `map<Key, V>` of live entries.
  - A cursor is an ordinal, and 256 is `end()`. `++` and `--` scan the
    presence array. The scans are specified by `Presence.NextSet` and
    `Presence.PrevSet`.
  - `std::next`, `std::prev` and `std::distance` are specified by a cursor's
    rank, which is the number of live slots below it.
  - The module `DirectMapScenario` replays the checks of the `direct_map` test
    case on the model.
- **The sequence algorithms** (`algorithm.dfy`). These are `erase`,
  `erase_if`, `insertion_sort` (with and without a comparator),
  `insertion_sort_copy` and `adaptive_insertion_sort_copy`.
  - They are methods over arrays.
  - The vector of `erase` is an array plus the returned live length.
  - A comparator is `<` on an integer key of the elements.
  - Sorting is specified as sorted, a permutation, and, for the comparator
    sort, stable: every key's subsequence is unchanged.
  - The module `AlgorithmScenario` replays the sorting and erasing tests.
- **`kblib/fakestd.h` utilities** (`fakestd.dfy`). These are the
  `max_element`, `equal` and `lexicographical_compare` loops, the `msb` bit
  trick on a 64-bit `uintmax_t`, the generic and array `swap`, and the owning
  box `heap_value<T>`.
  - `heap_value<T>` is modelled as a class whose pointer field refers to a
    heap `Cell`, or is `null`.

Two facts settle what `min()` is:
- The test `direct_map.cpp:56-72` inserts `map[map.min()]` into a map holding
  `'a'` and `'\0'`, and then counts three entries. So the test shows that
  `min()` is a third key, neither `'\0'` nor `'a'`. It shows no more than that.
- The model takes `min()` to be -128, the smallest signed `char`, because
  `min()` names the smallest key of the map's domain. `DirectMaps.Min` and
  `DirectMapScenario.ThreeEntries` follow that.

## Model

| member | source | states |
|---|---|---|
| `Presence.PopCountZero` | direct_map.cpp:7-9 | No presence flag is set exactly when the population count is zero, so `size() == 0` and `empty()` agree |
| `Presence.PopCountSet` | direct_map.cpp:35-39 | Bringing an absent slot to life raises the count by exactly one |
| `Presence.NextSet` | direct_map.cpp:21-24 | The forward scan returns the first live ordinal at or after its start, or the end when there is none; every ordinal it skips is absent |
| `Presence.PrevSet` | direct_map.cpp:26 | The backward scan returns the last live ordinal at or before its start, or -1; every ordinal it skips is absent |
| `Presence.RankEnds` | direct_map.cpp:51-53 | `begin()` is a cursor of rank 0, and `end()` is a cursor whose rank is the number of entries |
| `Presence.RankNext` | direct_map.cpp:50 | Stepping `++` from an entry reaches a cursor one rank higher |
| `Presence.RankPrev` | direct_map.cpp:52 | Stepping `--` from a cursor of positive rank reaches an entry one rank lower |
| `Presence.RankInjective` | direct_map.cpp:51-52 | Two cursors with the same rank are the same cursor, so `next(begin, size) == end` and `prev(end, size) == begin` |
| `Presence.RankStrict` | direct_map.cpp:53 | A cursor before another has a strictly smaller rank, so the distance between them is positive |
| `DirectMaps.Ord` | direct_map.cpp:6 | A `char` key's slot is its ordinal, key + 128, and it lies inside the 256-slot domain |
| `DirectMaps.OrdOrder` | direct_map.cpp:29-32 | Slot order is key order, and `KeyOf` inverts `Ord`, so walking the slots upwards visits keys in ascending order |
| `DirectMaps.KeyOf` | direct_map.cpp:6 | Every ordinal of the domain is the slot of exactly one `char` key |
| `DirectMaps.Min` | direct_map.cpp:56-58 | `min()` is the key of ordinal 0, no larger than any key, whatever the map holds |
| `DirectMaps.ModelCard` | direct_map.cpp:17 | The number of entries equals the number of set presence flags, which is what the cached count tracks |
| `DirectMaps.ModelUpdate` | direct_map.cpp:11 | Installing a value in a slot changes the entry of that slot's key and no other |
| `DirectMaps.EntriesLength` | direct_map.cpp:29-32 | A traversal from a cursor yields one pair per live slot at or after it |
| `DirectMaps.EntriesSound` | direct_map.cpp:29-32 | Every pair a traversal yields is a live slot's key and its value |
| `DirectMaps.EntriesAscending` | direct_map.cpp:29-32 | A traversal yields keys in strictly ascending order |
| `DirectMaps.EntriesComplete` | direct_map.cpp:29-32 | A traversal reaches every live slot at or after its start |
| `DirectMaps.EntriesCount` | direct_map.cpp:53 | A full traversal yields as many pairs as the map has entries |
| `DirectMaps.EntriesInModel` | direct_map.cpp:29-32 | Every pair of a full traversal is an entry of the map |
| `DirectMaps.ModelInEntries` | direct_map.cpp:29-32 | Every entry of the map turns up in a full traversal |
| `DirectMaps.FullTraversal` | direct_map.cpp:29-32 | A full traversal yields every entry of the map exactly once, as its (key, value) pair, keys strictly ascending |
| `DirectMaps.EntriesStep` | direct_map.cpp:21 | A traversal from an entry yields that entry, then continues from the next live slot |
| `DirectMaps.EntriesSkip` | direct_map.cpp:21 | Absent slots contribute nothing to a traversal |
| `DirectMaps.DirectMap.constructor` | direct_map.cpp:6-10 | A default-constructed map is valid and empty, so `begin() == end()` |
| `DirectMaps.DirectMap.Copy` | direct_map.cpp:74-75 | A copy is a deep copy into fresh storage and compares equal to its source |
| `DirectMaps.DirectMap.Move` | direct_map.cpp:76-77 | The moved-to map holds the source's entries, and the source is left a valid empty map |
| `DirectMaps.DirectMap.Size` | direct_map.cpp:8 | `size()` is the number of entries |
| `DirectMaps.DirectMap.Empty` | direct_map.cpp:9 | `empty()` holds exactly when there are no entries |
| `DirectMaps.DirectMap.Contains` | direct_map.cpp:10-13 | `contains(k)` holds exactly when `k` has an entry |
| `DirectMaps.DirectMap.At` | direct_map.cpp:16 | `at(k)` gives `k`'s value when present, and the key-not-found error otherwise |
| `DirectMaps.DirectMap.Find` | direct_map.cpp:14 | `find(k)` is the cursor of `k` when present, and `end()` otherwise |
| `DirectMaps.DirectMap.Deref` | direct_map.cpp:23 | Dereferencing an entry's cursor gives that entry's key and value |
| `DirectMaps.DirectMap.ScanUp` | direct_map.cpp:21 | The scanning loop computes the forward scan `NextSet` |
| `DirectMaps.DirectMap.ScanDown` | direct_map.cpp:26 | The scanning loop computes the backward scan `PrevSet` |
| `DirectMaps.DirectMap.Begin` | direct_map.cpp:7 | `begin()` is the cursor of the smallest key present, or `end()` when the map is empty |
| `DirectMaps.DirectMap.LowerBound` | direct_map.cpp:27 | `lower_bound(k)` is the cursor of the smallest present key not below `k`, or `end()` |
| `DirectMaps.DirectMap.UpperBound` | direct_map.cpp:54 | `upper_bound(k)` is the cursor of the smallest present key above `k`, or `end()` |
| `DirectMaps.DirectMap.Next` | direct_map.cpp:21-24 | `++` moves from an entry to the next larger present key, or to `end()` |
| `DirectMaps.DirectMap.Prev` | direct_map.cpp:26 | `--` moves from an entry or `end()` to the largest present key below it; that key must exist |
| `DirectMaps.DirectMap.Advance` | direct_map.cpp:51 | `std::next(c, n)` lands on the cursor of rank `rank(c) + n` |
| `DirectMaps.DirectMap.Retreat` | direct_map.cpp:52 | `std::prev(c, n)` lands on the cursor of rank `rank(c) - n` |
| `DirectMaps.DirectMap.Distance` | direct_map.cpp:53 | `std::distance(a, b)` is the difference of the cursors' ranks |
| `DirectMaps.DirectMap.Items` | direct_map.cpp:29-32 | Range-for, stepping `++` from `begin()` to `end()`, yields exactly the traversal of the live slots from ordinal 0 |
| `DirectMaps.DirectMap.Subscript` | direct_map.cpp:56 | `operator[](k)` returns `k`'s value. When `k` is absent it first installs a value-initialised one and counts the new entry. No other key changes |
| `DirectMaps.DirectMap.Put` | direct_map.cpp:35-39 | `map[k] = v` makes `k`'s value `v` and leaves every other key alone; `size()` grows only for a new key |
| `DirectMaps.DirectMap.Swap` | direct_map.cpp:78-79 | `swap` exchanges the two maps' entries |
| `DirectMaps.Equal` | direct_map.cpp:75 | `==` holds exactly when both maps hold the same keys with the same values |
| `Algorithm.FilterAppend` | algorithm.cpp:20-23 | Filtering a concatenation filters each part in order |
| `Algorithm.FilterCount` | algorithm.cpp:20-23 | A filter keeps each satisfying value with its full multiplicity and drops every other value |
| `Algorithm.FilterIdempotent` | algorithm.cpp:17-19 | Filtering twice with the same predicate changes nothing, so erasing again is a no-op |
| `Algorithm.EraseIf` | algorithm.cpp:20-23 | `erase_if` keeps exactly the elements that do not satisfy the predicate, in their original order, each with its multiplicity |
| `Algorithm.Erase` | algorithm.cpp:15-19 | `erase(c, v)` removes every copy of `v`, keeps the rest in order, and leaves every other value's multiplicity alone |
| `Algorithm.SwapNeighbours` | algorithm.cpp:90-115 | Exchanging two neighbours with different keys keeps the multiset and every key's subsequence, so the exchange is stable |
| `Algorithm.SortedUnique` | algorithm.cpp:47-53 | Two ascending sequences with the same elements are equal, so any sorted permutation equals `std::sort`'s result |
| `Algorithm.SinkStep` | algorithm.cpp:66-67 | One exchange of the insertion step keeps the prefix sorted except at the moving element |
| `Algorithm.SinkDone` | algorithm.cpp:66-67 | When the moving element stops, the extended prefix is sorted |
| `Algorithm.SinkLast` | algorithm.cpp:66-67 | One insertion step extends the sorted prefix by one element, stably, and leaves the rest of the range alone |
| `Algorithm.InsertionSortBy` | algorithm.cpp:90-115 | `insertion_sort(first, last, comp)` sorts by the comparator and is a stable permutation of its input |
| `Algorithm.InsertionSort` | algorithm.cpp:64-69 | `insertion_sort(first, last)` sorts ascending and is a permutation of its input |
| `Algorithm.InsertionSortCopy` | algorithm.cpp:74-78 | `insertion_sort_copy` writes the stably sorted permutation of the input to the output and leaves the input unchanged |
| `Algorithm.ReversedAt` | algorithm.cpp:84-89 | Element `k` of the reversed input is element `n - 1 - k` of the input |
| `Algorithm.ReversedMultiset` | algorithm.cpp:84-89 | Reversing keeps the multiset of elements |
| `Algorithm.AdaptiveInsertionSortCopy` | algorithm.cpp:84-89 | `adaptive_insertion_sort_copy` writes a sorted permutation of the input to the output, whichever direction it copies in, and leaves the input unchanged |
| `AlgorithmScenario.Sorting` | algorithm.cpp:66-69 | `insertion_sort` on the test input 3 7 4 3 1 9 5 gives the goal 1 3 3 4 5 7 9 |
| `AlgorithmScenario.SortingCopy` | algorithm.cpp:74-78 | `insertion_sort_copy` of the test input writes the goal to the output |
| `AlgorithmScenario.SortingAdaptive` | algorithm.cpp:84-88 | `adaptive_insertion_sort_copy` of the test input writes the goal to the output |
| `AlgorithmScenario.Erasing` | algorithm.cpp:15-19 | `erase(v, 2)` on 2 2 3 4 5 7 8 11 leaves 3 4 5 7 8 11 |
| `AlgorithmScenario.ErasingIf` | algorithm.cpp:20-23 | `erase_if(v, (~x) & 1)` on 2 2 3 4 5 7 8 11 leaves 3 5 7 11 |
| `AlgorithmScenario.IsEven` | algorithm.cpp:22 | The test's predicate `(~x) & 1` on a two's-complement `int`: `~x` is `-x - 1`, and `& 1` keeps its remainder modulo 2 |
| `AlgorithmScenario.IsEvenParity` | algorithm.cpp:22 | `(~x) & 1` holds exactly for the even values |
| `AlgorithmScenario.SortGoal` | algorithm.cpp:47-53 | Every sorted permutation of 3 7 4 3 1 9 5 is 1 3 3 4 5 7 9 |
| `AlgorithmScenario.NoTwos` | algorithm.cpp:15-19 | Erasing 2 from 2 2 3 4 5 7 8 11 leaves 3 4 5 7 8 11 |
| `AlgorithmScenario.NoEvens` | algorithm.cpp:20-23 | Erasing the even values from 2 2 3 4 5 7 8 11 leaves 3 5 7 11 |
| `DirectMapScenario.Scenario` | direct_map.cpp:5-17 | The full `direct_map` test. A new map is empty, with `begin() == end()`, `size() == 0` and no `'a'`. After `map['a'] = "42"` it contains `'a'` and not `'b'`. It then runs the stages below |
| `DirectMapScenario.OneEntry` | direct_map.cpp:14-28 | With only `'a'`: `find('a') == begin()`, `at('a') == "42"`, `size() == 1`, `next(begin()) == end()`, `--end() == begin()`, `lower_bound('a') == find('a')` and `upper_bound('a') == end()` |
| `DirectMapScenario.OneItem` | direct_map.cpp:29-32 | The range-for over the one-entry map yields exactly the pair (`'a'`, "42") |
| `DirectMapScenario.TwoEntries` | direct_map.cpp:34-54 | After `map['\0'] = "4567854"`: both values are found, `size() == 2`, `begin()` is `find('\0')` and holds "4567854", `next(begin())` is neither `begin()` nor `end()`, and `upper_bound('\t') == find('a')` |
| `DirectMapScenario.TwoSteps` | direct_map.cpp:51-53 | With two entries, `next(begin(), 2) == end()`, `prev(end(), 2) == begin()` and `distance(begin(), end()) == 2` |
| `DirectMapScenario.ThreeEntries` | direct_map.cpp:56-72 | After `map[min()] = "2"`, with three entries: `next(begin(), 3) == end()`, `prev(end(), 3) == begin()` and `distance(begin(), end()) == 3`; the values of `'a'` and `min()` are found |
| `DirectMapScenario.Copies` | direct_map.cpp:73-80 | A copy compares equal to the map; a move-constructed map compares equal to the copy; after swapping the copy with the moved-from map, the map compares equal to the moved-to one and again holds the entries it started with |
| `FakeStd.MaxElement` | kblib/fakestd.h:287-300 | `max_element` returns `last` on an empty range; otherwise it returns a largest element's position, the first such position on ties |
| `FakeStd.MaxElementBy` | kblib/fakestd.h:302-316 | The same promise for the comparator overload, stated on keys |
| `FakeStd.Equal` | kblib/fakestd.h:902-910 | Given a second range at least as long, `equal` holds exactly when the first range matches the start of the second |
| `FakeStd.CommonPrefix` | kblib/fakestd.h:925-930 | The loop's stopping point: the longest common prefix, ending where a range ends or the elements differ |
| `FakeStd.FirstDifference` | kblib/fakestd.h:925-932 | Only the first position where the ranges differ, or where one ends, decides the lexicographic order |
| `FakeStd.LexicographicalCompare` | kblib/fakestd.h:922-933 | `lexicographical_compare` returns true exactly when the first range is lexicographically less |
| `FakeStd.LexIrreflexive` | kblib/fakestd.h:932 | Equal ranges compare false |
| `FakeStd.LexPrefix` | kblib/fakestd.h:932 | A proper prefix is less than the range it begins |
| `FakeStd.LexTrichotomy` | kblib/fakestd.h:925-932 | Of two different ranges, exactly one is less than the other |
| `FakeStd.Msb` | kblib/fakestd.h:673-681 | `msb(x)` is 0 exactly for x = 0; otherwise it is the highest set bit of x: a power of two p with p <= x < 2p |
| `FakeStd.SwapObjects` | kblib/fakestd.h:617-623 | The generic `swap` exchanges the two objects' values |
| `FakeStd.SwapArrays` | kblib/fakestd.h:642-649 | The array `swap` exchanges `a[i]` and `b[i]` for every i < N and nothing else |
| `FakeStd.HeapValue.constructor` | kblib/fakestd.h:960-961 | Default and `nullptr` construction give an empty box |
| `FakeStd.HeapValue.InPlace` | kblib/fakestd.h:963-968 | In-place construction, by `in_place` or `in_place_agg`, gives a box holding a fresh object with the built value |
| `FakeStd.HeapValue.Copy` | kblib/fakestd.h:970 | Copy construction is deep: a fresh object with the same value, or an empty box from an empty box |
| `FakeStd.HeapValue.Move` | kblib/fakestd.h:971 | Move construction takes the source's object and leaves the source empty |
| `FakeStd.HeapValue.HasValue` | kblib/fakestd.h:1039-1041 | `operator bool` holds exactly when the box's contents are some value |
| `FakeStd.HeapValue.Value` | kblib/fakestd.h:1048-1049 | `value()` is the value held |
| `FakeStd.HeapValue.Reset` | kblib/fakestd.h:1033-1037 | `reset()` leaves the box empty |
| `FakeStd.HeapValue.Assign` | kblib/fakestd.h:1010-1031 | `assign(...)` leaves the box holding a fresh object with the given value |
| `FakeStd.HeapValue.CopyAssign` | kblib/fakestd.h:973-984 | Copy assignment does nothing on self-assignment. Otherwise the target gets the source's value: empty from empty, reusing the object it already holds, else a fresh one. The source is unchanged |
| `FakeStd.HeapValue.MoveAssign` | kblib/fakestd.h:986-993 | Move assignment does nothing on self-assignment. Otherwise the target takes the source's object and the source is left empty |
| `FakeStd.HeapValue.Swap` | kblib/fakestd.h:1043 | `swap` exchanges the two boxes' objects |

## Left out

- The allocator parameter of `direct_map` is not modelled. Storage is one
  pair of arrays, and the allocator variant's copy ban (`direct_map.cpp:308-314`)
  is a compile-time restriction.
- `direct_map`'s word-wise bit scanning is modelled as a flag-by-flag loop with
  the same result.
- Erasing from a `direct_map` is not modelled. The tests do not exercise it,
  and `kblib/direct_map.h` is not part of this model.
- `DirectMaps.Equal` compares slot by slot. This gives the same answer as
  comparing the two traversals, which `EntriesInModel` and `ModelInEntries`
  tie to the map's entries.
- `kblib/algorithm.h` is not part of this model. The sorting and erasing
  methods are specified by the behaviour the tests check.
- `AdaptiveInsertionSortCopy`: its reversal heuristic stands in for the
  header's. Copy backwards when most neighbouring pairs are out of order.
  The contract claims only what holds whichever direction is copied: sorted
  and a permutation.
- `AdaptiveInsertionSortCopy`: stability is not claimed, because reversing the
  input does not preserve it.
- Comparators are modelled as `<` on an integer key. A general strict weak
  order on an arbitrary type is not modelled.
- The `(~x) & 1` predicate of the erase test is written arithmetically on
  unbounded integers. `~x` is `-x - 1`, and `& 1` is the remainder modulo 2.
  On 32-bit two's-complement values these give the same bit.
- `insertion_sort_copy` into an output range of a different length is not
  modelled. The tests always pass the same length.
- The test's random inputs, the timing tests (`algorithm.cpp:131-239`) and
  `zip` are not modelled.
- `max_element`, `equal` and `lexicographical_compare` are modelled on
  `seq` ranges. `lexicographical_compare` uses `int` elements; iterator
  categories do not matter to these loops.
- The tuple overload of `swap` (`kblib/fakestd.h:656-663`) is not modelled.
  It is the generic swap applied to each member.
- The member-`swap` overload dispatches to `DirectMap.Swap` or
  `HeapValue.Swap`.
- `heap_value`'s `operator=(const T&)` and `operator=(T&&)` are not modelled,
  because they fall off the end without returning.
- `assign()` with no arguments is `Assign` with the value-initialised `T`.
- `get()` and `operator->` expose the raw pointer and are not modelled.
  Destruction is not modelled.
- Unique ownership across `heap_value` objects is not modelled as a global
  invariant. `CopyAssign` is correct even when two boxes share an object.
- The compile-time trait machinery of `kblib/fakestd.h`, `to_unique` and the
  integer casts have no run-time behaviour to verify.
- The `constexpr` test helper `l` is not modelled. Constant evaluation has no
  counterpart here.
