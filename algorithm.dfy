/** The sequence algorithms of `kblib/algorithm.h` as they are exercised by the
    library's tests: the remove-erase pair `erase`/`erase_if` on a vector, the
    in-place `insertion_sort` (with the default `<` or with a comparator), and
    the copying sorts `insertion_sort_copy` and `adaptive_insertion_sort_copy`.

    A comparator is modelled as `<` on an integer key of each element
    (`key(x) < key(y)`), which covers the default `<` on `int` (the key is the
    identity) and projections such as "compare the first member of a pair".
    A vector is an array together with its live length: `erase` compacts the
    kept elements to the front and returns the new length. */
module Algorithm {

  // ---------------------------------------------------------------------
  // Specification functions

  /** The elements of `s` that satisfy `f`, in their original order. */
  function Filter<T>(s: seq<T>, f: T -> bool): (r: seq<T>)
    ensures |r| <= |s|
  {
    if s == [] then [] else (if f(s[0]) then [s[0]] else []) + Filter(s[1..], f)
  }

  function Not<T>(f: T -> bool): T -> bool
  {
    x => !f(x)
  }

  function Equals<T(==)>(v: T): T -> bool
  {
    x => x == v
  }

  /** Filtering distributes over concatenation. */
  lemma {:induction false} FilterAppend<T>(a: seq<T>, b: seq<T>, f: T -> bool)
    ensures Filter(a + b, f) == Filter(a, f) + Filter(b, f)
  {
    if a == [] {
      assert a + b == b;
    } else {
      var h := if f(a[0]) then [a[0]] else [];
      assert (a + b)[0] == a[0] && (a + b)[1..] == a[1..] + b;
      assert Filter(a + b, f) == h + Filter(a[1..] + b, f);
      FilterAppend(a[1..], b, f);
      assert Filter(a, f) == h + Filter(a[1..], f);
    }
  }

  /** A filter keeps exactly the elements that satisfy the predicate, each with
      its full multiplicity, and drops every other element. */
  lemma {:induction false} FilterCount<T>(s: seq<T>, f: T -> bool)
    ensures forall x :: multiset(Filter(s, f))[x] == if f(x) then multiset(s)[x] else 0
  {
    if s != [] {
      FilterCount(s[1..], f);
      assert s == [s[0]] + s[1..];
    }
  }

  /** Filtering twice with the same predicate changes nothing. */
  lemma {:induction false} FilterIdempotent<T>(s: seq<T>, f: T -> bool)
    ensures Filter(Filter(s, f), f) == Filter(s, f)
  {
    if s != [] {
      FilterIdempotent(s[1..], f);
      FilterAppend(if f(s[0]) then [s[0]] else [], Filter(s[1..], f), f);
      if f(s[0]) {
        assert [s[0]][1..] == [];
      }
    }
  }

  // ---------------------------------------------------------------------
  // erase and erase_if

  /** `erase_if(c, p)`: moves every element that does not satisfy `p` to the
      front of the vector, in order, and returns the vector's new length. */
  method EraseIf<T>(a: array<T>, f: T -> bool) returns (len: nat)
    modifies a
    ensures len <= a.Length
    ensures a[..len] == Filter(old(a[..]), Not(f))
    ensures forall x :: multiset(a[..len])[x] == if f(x) then 0 else multiset(old(a[..]))[x]
  {
    ghost var s := a[..];
    len := 0;
    var i := 0;
    while i < a.Length
      invariant len <= i <= a.Length
      invariant a[..len] == Filter(s[..i], Not(f))
      invariant forall k :: i <= k < a.Length ==> a[k] == s[k]
    {
      assert s[..i + 1] == s[..i] + [s[i]];
      FilterAppend(s[..i], [s[i]], Not(f));
      var x := a[i];
      if !f(x) {
        a[len] := x;
        len := len + 1;
      }
      i := i + 1;
    }
    assert s[..i] == s;
    FilterCount(s, Not(f));
  }

  /** `erase(c, v)`: removes every element equal to `v`, keeping the rest in
      order; every other value keeps its multiplicity. */
  method Erase<T(==)>(a: array<T>, v: T) returns (len: nat)
    modifies a
    ensures len <= a.Length
    ensures a[..len] == Filter(old(a[..]), Not(Equals(v)))
    ensures multiset(a[..len]) == multiset(old(a[..]))[v := 0]
  {
    len := EraseIf(a, Equals(v));
    forall x
      ensures multiset(a[..len])[x] == multiset(old(a[..]))[v := 0][x]
    {
      assert Equals(v)(x) == (x == v);
    }
  }

  // ---------------------------------------------------------------------
  // Sortedness, permutation and stability

  ghost predicate SortedBy<T>(s: seq<T>, key: T -> int)
  {
    forall i, j :: 0 <= i < j < |s| ==> key(s[i]) <= key(s[j])
  }

  function Id(x: int): int
  {
    x
  }

  /** Ascending under the default `<` on `int`. */
  ghost predicate Sorted(s: seq<int>)
  {
    SortedBy(s, Id)
  }

  function KeyIs<T>(key: T -> int, k: int): T -> bool
  {
    x => key(x) == k
  }

  /** `t` holds the same elements as `s`, and the elements that share a key
      appear in the same relative order in both: a stable rearrangement. */
  ghost predicate StablePermutation<T>(t: seq<T>, s: seq<T>, key: T -> int)
  {
    && multiset(t) == multiset(s)
    && forall k :: Filter(t, KeyIs(key, k)) == Filter(s, KeyIs(key, k))
  }

  /** Exchanging two neighbours whose keys differ is a stable rearrangement. */
  lemma SwapNeighbours<T>(s: seq<T>, j: nat, key: T -> int)
    requires 0 < j < |s| && key(s[j - 1]) != key(s[j])
    ensures StablePermutation(s[j - 1 := s[j]][j := s[j - 1]], s, key)
  {
    var t := s[j - 1 := s[j]][j := s[j - 1]];
    var pre, post := s[..j - 1], s[j + 1..];
    assert s == pre + [s[j - 1], s[j]] + post;
    assert t == pre + [s[j], s[j - 1]] + post;
    forall k
      ensures Filter(t, KeyIs(key, k)) == Filter(s, KeyIs(key, k))
    {
      var f := KeyIs(key, k);
      FilterAppend(pre + [s[j - 1], s[j]], post, f);
      FilterAppend(pre, [s[j - 1], s[j]], f);
      FilterAppend(pre + [s[j], s[j - 1]], post, f);
      FilterAppend(pre, [s[j], s[j - 1]], f);
      assert [s[j - 1], s[j]][1..] == [s[j]];
      assert [s[j], s[j - 1]][1..] == [s[j - 1]];
    }
  }

  /** Two ascending sequences with the same elements are equal: a sorted
      permutation of an input is unique, whichever algorithm produced it. */
  lemma {:induction false} SortedUnique(s: seq<int>, t: seq<int>)
    requires Sorted(s) && Sorted(t) && multiset(s) == multiset(t)
    ensures s == t
  {
    if s == [] {
      assert |multiset(t)| == 0;
    } else {
      assert |multiset(t)| == |s|;
      assert s[0] in multiset(t) && t[0] in multiset(s);
      SortedFirstLeast(t, s[0]);
      SortedFirstLeast(s, t[0]);
      SameTail(s, t);
      SortedTail(s);
      SortedTail(t);
      SortedUnique(s[1..], t[1..]);
      assert s == [s[0]] + s[1..];
      assert t == [t[0]] + t[1..];
    }
  }

  lemma SameTail(s: seq<int>, t: seq<int>)
    requires s != [] && t != [] && s[0] == t[0] && multiset(s) == multiset(t)
    ensures multiset(s[1..]) == multiset(t[1..])
  {
    assert s == [s[0]] + s[1..];
    assert t == [t[0]] + t[1..];
    assert multiset(s[1..]) == multiset(s) - multiset{s[0]};
    assert multiset(t[1..]) == multiset(t) - multiset{t[0]};
  }

  lemma SortedFirstLeast(s: seq<int>, x: int)
    requires Sorted(s) && x in s
    ensures s[0] <= x
  {
    var k :| 0 <= k < |s| && s[k] == x;
    if k > 0 {
      assert Id(s[0]) <= Id(s[k]);
    }
  }

  lemma SortedTail(s: seq<int>)
    requires Sorted(s) && s != []
    ensures Sorted(s[1..])
  {
    forall i, j | 0 <= i < j < |s| - 1
      ensures Id(s[1..][i]) <= Id(s[1..][j])
    {
      assert Id(s[i + 1]) <= Id(s[j + 1]);
    }
  }

  // ---------------------------------------------------------------------
  // insertion_sort

  /** `s[..i + 1]` is ascending except that the element at `j` may be smaller
      than its left neighbours; everything right of `j` is at least `s[j]`. */
  ghost predicate SortedExcept<T>(s: seq<T>, i: nat, j: nat, key: T -> int)
    requires j <= i < |s|
  {
    forall p, q :: 0 <= p < q <= i && q != j ==> key(s[p]) <= key(s[q])
  }

  lemma SinkStep<T>(s: seq<T>, i: nat, j: nat, key: T -> int)
    requires 0 < j <= i < |s| && SortedExcept(s, i, j, key)
    requires key(s[j]) < key(s[j - 1])
    ensures SortedExcept(s[j - 1 := s[j]][j := s[j - 1]], i, j - 1, key)
  {
    var t := s[j - 1 := s[j]][j := s[j - 1]];
    forall p, q | 0 <= p < q <= i && q != j - 1
      ensures key(t[p]) <= key(t[q])
    {
      if q == j {
        if p < j - 1 {
          assert key(s[p]) <= key(s[j - 1]);
        }
      } else if p == j {
        assert key(s[j - 1]) <= key(s[q]);
      } else if p == j - 1 {
        assert key(s[j]) < key(s[j - 1]) <= key(s[q]);
      }
    }
  }

  lemma SinkDone<T>(s: seq<T>, i: nat, j: nat, key: T -> int)
    requires j <= i < |s| && SortedExcept(s, i, j, key)
    requires j == 0 || key(s[j - 1]) <= key(s[j])
    ensures SortedBy(s[..i + 1], key)
  {
    forall p, q | 0 <= p < q <= i
      ensures key(s[p]) <= key(s[q])
    {
      if q == j && p < j - 1 {
        assert key(s[p]) <= key(s[j - 1]);
      }
    }
  }

  /** One insertion step: the element at `i` sinks past every larger
      neighbour of the sorted prefix `a[..i]`; equal keys are never passed. */
  method SinkLast<T>(a: array<T>, i: nat, key: T -> int)
    requires i < a.Length && SortedBy(a[..i], key)
    modifies a
    ensures SortedBy(a[..i + 1], key)
    ensures StablePermutation(a[..], old(a[..]), key)
    ensures a[i + 1..] == old(a[i + 1..])
  {
    var j: nat := i;
    while j > 0 && key(a[j]) < key(a[j - 1])
      invariant j <= i
      invariant SortedExcept(a[..], i, j, key)
      invariant StablePermutation(a[..], old(a[..]), key)
      invariant a[i + 1..] == old(a[i + 1..])
    {
      ghost var s := a[..];
      SwapNeighbours(s, j, key);
      SinkStep(s, i, j, key);
      a[j - 1], a[j] := a[j], a[j - 1];
      assert a[..] == s[j - 1 := s[j]][j := s[j - 1]];
      j := j - 1;
    }
    SinkDone(a[..], i, j, key);
  }

  /** `insertion_sort(first, last, comp)`: sorts the range in place by the
      comparator, stably. */
  method InsertionSortBy<T>(a: array<T>, key: T -> int)
    modifies a
    ensures SortedBy(a[..], key)
    ensures StablePermutation(a[..], old(a[..]), key)
  {
    var i := 0;
    while i < a.Length
      invariant i <= a.Length
      invariant SortedBy(a[..i], key)
      invariant StablePermutation(a[..], old(a[..]), key)
    {
      SinkLast(a, i, key);
      i := i + 1;
    }
    assert a[..i] == a[..];
  }

  /** `insertion_sort(first, last)`: sorts the range in place ascending. */
  method InsertionSort(a: array<int>)
    modifies a
    ensures Sorted(a[..])
    ensures multiset(a[..]) == multiset(old(a[..]))
  {
    InsertionSortBy(a, Id);
  }

  // ---------------------------------------------------------------------
  // insertion_sort_copy and adaptive_insertion_sort_copy

  /** `insertion_sort_copy(first, last, d_first, d_last)`: writes the input,
      stably sorted, to an output range of the same length; the input range
      is left as it was. */
  method InsertionSortCopy<T>(src: array<T>, dst: array<T>, key: T -> int)
    requires src != dst && src.Length == dst.Length
    modifies dst
    ensures src[..] == old(src[..])
    ensures SortedBy(dst[..], key)
    ensures StablePermutation(dst[..], src[..], key)
  {
    var i := 0;
    while i < src.Length
      invariant i <= src.Length
      invariant dst[..i] == src[..i]
    {
      dst[i] := src[i];
      i := i + 1;
    }
    assert dst[..] == src[..];
    InsertionSortBy(dst, key);
  }

  /** The input read backwards. */
  function Reversed<T>(s: seq<T>): (r: seq<T>)
    ensures |r| == |s|
  {
    if s == [] then [] else [s[|s| - 1]] + Reversed(s[..|s| - 1])
  }

  lemma {:induction false} ReversedAt<T>(s: seq<T>, k: nat)
    requires k < |s|
    ensures Reversed(s)[k] == s[|s| - 1 - k]
  {
    if k > 0 {
      ReversedAt(s[..|s| - 1], k - 1);
    }
  }

  lemma {:induction false} ReversedMultiset<T>(s: seq<T>)
    ensures multiset(Reversed(s)) == multiset(s)
  {
    if s != [] {
      ReversedMultiset(s[..|s| - 1]);
      assert s == s[..|s| - 1] + [s[|s| - 1]];
    }
  }

  /** Number of neighbouring pairs that are out of order. */
  function Descents<T>(s: seq<T>, key: T -> int): nat
  {
    if |s| < 2 then 0
    else Descents(s[..|s| - 1], key) + (if key(s[|s| - 1]) < key(s[|s| - 2]) then 1 else 0)
  }

  /** `adaptive_insertion_sort_copy`: when most neighbouring pairs of the
      input are out of order, the input is copied backwards before the
      insertion pass, so that a descending input costs linear time; the output
      is the sorted permutation of the input either way. */
  method AdaptiveInsertionSortCopy<T>(src: array<T>, dst: array<T>, key: T -> int)
    requires src != dst && src.Length == dst.Length
    modifies dst
    ensures src[..] == old(src[..])
    ensures SortedBy(dst[..], key)
    ensures multiset(dst[..]) == multiset(src[..])
  {
    var n := src.Length;
    if 2 * Descents(src[..], key) > n {
      var i := 0;
      while i < n
        invariant i <= n
        invariant forall k :: 0 <= k < i ==> dst[k] == src[n - 1 - k]
      {
        dst[i] := src[n - 1 - i];
        i := i + 1;
      }
      assert dst[..] == Reversed(src[..]) by {
        forall k | 0 <= k < n {
          ReversedAt(src[..], k);
        }
      }
      ReversedMultiset(src[..]);
      InsertionSortBy(dst, key);
    } else {
      InsertionSortCopy(src, dst, key);
    }
  }
}

/** The checks of the library's sorting and erasing tests, replayed on the
    model: every one follows from the contracts above. */
module AlgorithmScenario {
  import opened Algorithm

  /** The sorted permutation of the test input 3 7 4 3 1 9 5 is the
      sequence `std::sort` gives. */
  lemma SortGoal(t: seq<int>)
    requires Sorted(t) && multiset(t) == multiset([3, 7, 4, 3, 1, 9, 5])
    ensures t == [1, 3, 3, 4, 5, 7, 9]
  {
    var goal := [1, 3, 3, 4, 5, 7, 9];
    GoalSorted();
    GoalPermutes();
    SortedUnique(t, goal);
  }

  lemma GoalSorted()
    ensures Sorted([1, 3, 3, 4, 5, 7, 9])
  {
  }

  lemma GoalPermutes()
    ensures multiset([3, 7, 4, 3, 1, 9, 5]) == multiset([1, 3, 3, 4, 5, 7, 9])
  {
  }

  /** The `insertion_sort` section: sorting the test input in place gives
      the goal. */
  method Sorting() returns (sorted: seq<int>)
    ensures sorted == [1, 3, 3, 4, 5, 7, 9]
  {
    var a := new int[] [3, 7, 4, 3, 1, 9, 5];
    assert a[..] == [3, 7, 4, 3, 1, 9, 5];
    InsertionSort(a);
    SortGoal(a[..]);
    sorted := a[..];
  }

  /** The `insertion_sort_copy` section: the output is the goal. */
  method SortingCopy() returns (sorted: seq<int>)
    ensures sorted == [1, 3, 3, 4, 5, 7, 9]
  {
    var a := new int[] [3, 7, 4, 3, 1, 9, 5];
    assert a[..] == [3, 7, 4, 3, 1, 9, 5];
    var out := new int[7];
    InsertionSortCopy(a, out, Id);
    SortGoal(out[..]);
    sorted := out[..];
  }

  /** The `adaptive_insertion_sort_copy` section: the output is the goal. */
  method SortingAdaptive() returns (sorted: seq<int>)
    ensures sorted == [1, 3, 3, 4, 5, 7, 9]
  {
    var a := new int[] [3, 7, 4, 3, 1, 9, 5];
    assert a[..] == [3, 7, 4, 3, 1, 9, 5];
    var out := new int[7];
    AdaptiveInsertionSortCopy(a, out, Id);
    SortGoal(out[..]);
    sorted := out[..];
  }

  /** The predicate of the `erase_if` test, `(~x) & 1`, on a two's-complement
      `int`: `~x` is `-x - 1`, and `& 1` keeps the lowest bit, which is the
      remainder modulo 2 for negative values too. */
  function IsEven(x: int): bool
  {
    (-x - 1) % 2 == 1
  }

  /** The test's predicate holds exactly for the even values. */
  lemma IsEvenParity(x: int)
    ensures IsEven(x) <==> x % 2 == 0
  {
  }

  /** `erase(v, 2)` on the test vector leaves the vector without its 2s. */
  method Erasing() returns (kept: seq<int>)
    ensures kept == [3, 4, 5, 7, 8, 11]
  {
    var a := new int[] [2, 2, 3, 4, 5, 7, 8, 11];
    assert a[..] == [2, 2, 3, 4, 5, 7, 8, 11];
    var len := Erase(a, 2);
    NoTwos();
    kept := a[..len];
  }

  /** `erase_if(v, (~x) & 1)` on the test vector leaves its odd values. */
  method ErasingIf() returns (kept: seq<int>)
    ensures kept == [3, 5, 7, 11]
  {
    var b := new int[] [2, 2, 3, 4, 5, 7, 8, 11];
    assert b[..] == [2, 2, 3, 4, 5, 7, 8, 11];
    var len := EraseIf(b, IsEven);
    NoEvens();
    kept := b[..len];
  }

  lemma NoEvens()
    ensures Filter([2, 2, 3, 4, 5, 7, 8, 11], Not(IsEven)) == [3, 5, 7, 11]
  {
    var f := Not(IsEven);
    assert IsEven(2) && !IsEven(3) && IsEven(4) && !IsEven(5) && !IsEven(7) && IsEven(8) && !IsEven(11);
    assert f(2) == false && f(3) && f(4) == false && f(5) && f(7) && f(8) == false && f(11);
  }

  lemma NoTwos()
    ensures Filter([2, 2, 3, 4, 5, 7, 8, 11], Not(Equals(2))) == [3, 4, 5, 7, 8, 11]
  {
    var f := Not(Equals(2));
    assert f(2) == false && f(3) && f(4) && f(5) && f(7) && f(8) && f(11);
  }
}
