/** The run-time utilities of `kblib/fakestd.h`: the `max_element`, `equal`
    and `lexicographical_compare` loops, the `msb` bit trick, the `swap`
    function object and the owning box `heap_value<T>`. */
module FakeStd {

  // ---------------------------------------------------------------------
  // max_element

  /** `max_element(first, last)` over a range of `int`: the end position
      (`|s|`) for an empty range, otherwise the position of a largest element,
      the first one when several are largest. */
  method MaxElement(s: seq<int>) returns (largest: nat)
    ensures largest == |s| <==> s == []
    ensures largest <= |s|
    ensures largest < |s| ==> forall j :: 0 <= j < |s| ==> s[j] <= s[largest]
    ensures largest < |s| ==> forall j :: 0 <= j < largest ==> s[j] < s[largest]
  {
    if |s| == 0 {
      return |s|;
    }
    largest := 0;
    var first := 1;
    while first < |s|
      invariant largest < first <= |s|
      invariant forall j :: 0 <= j < first ==> s[j] <= s[largest]
      invariant forall j :: 0 <= j < largest ==> s[j] < s[largest]
    {
      if s[largest] < s[first] {
        largest := first;
      }
      first := first + 1;
    }
  }

  /** `max_element(first, last, comp)` with the comparator
      `comp(x, y) = key(x) < key(y)`: the same promise, stated on keys. */
  method MaxElementBy<T>(s: seq<T>, key: T -> int) returns (largest: nat)
    ensures largest == |s| <==> s == []
    ensures largest <= |s|
    ensures largest < |s| ==> forall j :: 0 <= j < |s| ==> key(s[j]) <= key(s[largest])
    ensures largest < |s| ==> forall j :: 0 <= j < largest ==> key(s[j]) < key(s[largest])
  {
    if |s| == 0 {
      return |s|;
    }
    largest := 0;
    var first := 1;
    while first < |s|
      invariant largest < first <= |s|
      invariant forall j :: 0 <= j < first ==> key(s[j]) <= key(s[largest])
      invariant forall j :: 0 <= j < largest ==> key(s[j]) < key(s[largest])
    {
      if key(s[largest]) < key(s[first]) {
        largest := first;
      }
      first := first + 1;
    }
  }

  // ---------------------------------------------------------------------
  // equal

  /** `equal(first1, last1, first2)`: the caller guarantees that the second
      range is at least as long as the first; the answer is whether the first
      range matches the start of the second. */
  method Equal<T(==)>(a: seq<T>, b: seq<T>) returns (r: bool)
    requires |a| <= |b|
    ensures r <==> a == b[..|a|]
  {
    var i := 0;
    while i < |a|
      invariant i <= |a|
      invariant a[..i] == b[..i]
    {
      if !(a[i] == b[i]) {
        assert a[i] != b[..|a|][i];
        return false;
      }
      i := i + 1;
    }
    assert a == a[..i];
    return true;
  }

  // ---------------------------------------------------------------------
  // lexicographical_compare

  /** `a` and `b` agree below `k`, and position `k` decides for `a`: either
      `a` has ended there and `b` has not, or both go on and `a[k] < b[k]`. */
  predicate LessAt(a: seq<int>, b: seq<int>, k: nat)
    requires k <= |a| && k <= |b|
  {
    (k == |a| && k < |b|) || (k < |a| && k < |b| && a[k] < b[k])
  }

  /** The lexicographic order: some common prefix of `a` and `b` is followed
      by a position that decides for `a`. */
  ghost predicate LexLess(a: seq<int>, b: seq<int>)
  {
    exists k :: 0 <= k <= |a| && k <= |b| && a[..k] == b[..k] && LessAt(a, b, k)
  }

  /** Length of the longest common prefix of `a` and `b`, from `i` on. */
  function CommonPrefix(a: seq<int>, b: seq<int>, i: nat): (n: nat)
    requires i <= |a| && i <= |b| && a[..i] == b[..i]
    ensures i <= n <= |a| && n <= |b| && a[..n] == b[..n]
    ensures n == |a| || n == |b| || a[n] != b[n]
    decreases |a| - i
  {
    if i == |a| || i == |b| || a[i] != b[i] then i
    else
      assert a[..i + 1] == a[..i] + [a[i]] && b[..i + 1] == b[..i] + [b[i]];
      CommonPrefix(a, b, i + 1)
  }

  /** Only the first position where `a` and `b` differ (or one of them ends)
      decides the order. */
  lemma FirstDifference(a: seq<int>, b: seq<int>, i: nat)
    requires i <= |a| && i <= |b| && a[..i] == b[..i]
    requires i == |a| || i == |b| || a[i] != b[i]
    ensures LexLess(a, b) <==> LessAt(a, b, i)
  {
    if LexLess(a, b) {
      var k :| 0 <= k <= |a| && k <= |b| && a[..k] == b[..k] && LessAt(a, b, k);
      assert k == i;
    }
  }

  /** `lexicographical_compare(first1, last1, first2, last2)` on ranges of
      `int`: true exactly when the first range is lexicographically less. */
  method LexicographicalCompare(a: seq<int>, b: seq<int>) returns (r: bool)
    ensures r <==> LexLess(a, b)
  {
    var i := 0;
    while i < |a| && i < |b|
      invariant i <= |a| && i <= |b|
      invariant a[..i] == b[..i]
    {
      if a[i] < b[i] {
        FirstDifference(a, b, i);
        return true;
      }
      if b[i] < a[i] {
        FirstDifference(a, b, i);
        return false;
      }
      assert a[..i + 1] == a[..i] + [a[i]] && b[..i + 1] == b[..i] + [b[i]];
      i := i + 1;
    }
    FirstDifference(a, b, i);
    r := i == |a| && i < |b|;
  }

  /** No range is less than itself. */
  lemma LexIrreflexive(a: seq<int>)
    ensures !LexLess(a, a)
  {
    FirstDifference(a, a, |a|);
  }

  /** A proper prefix is less than the range it starts. */
  lemma LexPrefix(a: seq<int>, b: seq<int>)
    requires |a| < |b| && a == b[..|a|]
    ensures LexLess(a, b)
  {
    assert a[..|a|] == b[..|a|] && LessAt(a, b, |a|);
  }

  /** Of two different ranges exactly one is less than the other. */
  lemma LexTrichotomy(a: seq<int>, b: seq<int>)
    requires a != b
    ensures LexLess(a, b) != LexLess(b, a)
  {
    var n := CommonPrefix(a, b, 0);
    FirstDifference(a, b, n);
    FirstDifference(b, a, n);
  }

  // ---------------------------------------------------------------------
  // detail::msb

  /** `msb(x)` on a `uintmax_t`: smear the highest set bit into every lower
      position, then keep only the top one. The result is 0 for 0 and
      otherwise a power of two `r` with `r <= x < 2 * r`, the highest set bit
      of `x`. */
  method Msb(x0: bv64) returns (r: bv64)
    ensures r == 0 <==> x0 == 0
    ensures x0 != 0 ==> r & (r - 1) == 0 && r <= x0 && x0 >> 1 < r
  {
    var x := x0;
    x := x | (x >> 1);
    x := x | (x >> 2);
    x := x | (x >> 4);
    x := x | (x >> 8);
    x := x | (x >> 16);
    x := x | (x >> 32);
    SmearFacts(x0, x);
    TopOfMask(x0, x);
    r := x & !(x >> 1);
  }

  /** After the six shift-or steps, `s` covers `x`, is a mask of low bits
      (all ones below its top bit) and has no set bit above the top bit of `x`. */
  lemma SmearFacts(x: bv64, s: bv64)
    requires var x1 := x | (x >> 1);
             var x2 := x1 | (x1 >> 2);
             var x4 := x2 | (x2 >> 4);
             var x8 := x4 | (x4 >> 8);
             var x16 := x8 | (x8 >> 16);
             s == x16 | (x16 >> 32)
    ensures x | s == s
    ensures s & (s + 1) == 0
    ensures x != 0 ==> s >> 1 < x
    ensures x == 0 ==> s == 0
  {
  }

  /** The top bit of a low-bit mask that covers `x` and reaches no further
      than the top bit of `x` is that top bit. */
  lemma TopOfMask(x: bv64, s: bv64)
    requires x | s == s && s & (s + 1) == 0
    requires x != 0 ==> s >> 1 < x
    requires x == 0 ==> s == 0
    ensures var r := s & !(s >> 1);
      (r == 0 <==> x == 0) &&
      (x != 0 ==> r & (r - 1) == 0 && r <= x && x >> 1 < r)
  {
    TopIsPower(s);
    TopAbove(x, s);
    if x != 0 {
      TopBelow(x, s);
    }
  }

  lemma TopIsPower(s: bv64)
    requires s & (s + 1) == 0
    ensures var r := s & !(s >> 1); r & (r - 1) == 0
  {
  }

  lemma TopBelow(x: bv64, s: bv64)
    requires x != 0 && s & (s + 1) == 0 && s >> 1 < x
    ensures s & !(s >> 1) <= x
  {
  }

  lemma TopAbove(x: bv64, s: bv64)
    requires x | s == s && s & (s + 1) == 0
    ensures x >> 1 < s & !(s >> 1) || s == 0
  {
  }

  // ---------------------------------------------------------------------
  // swap

  /** An object a reference can denote: the target of `T&`, and the heap
      object a `heap_value` owns. */
  class Cell<T> {
    var val: T

    constructor(v: T)
      ensures val == v
    {
      val := v;
    }
  }

  /** `swap(a, b)` for a type without a member `swap`: move `a` aside, move
      `b` into `a`, move the saved value into `b`. */
  method SwapObjects<T>(a: Cell<T>, b: Cell<T>)
    modifies a, b
    ensures a.val == old(b.val) && b.val == old(a.val)
  {
    var tmp := a.val;
    a.val := b.val;
    b.val := tmp;
  }

  /** `swap(a, b)` for two arrays of the same length `N`: element `i` of
      each is exchanged with element `i` of the other, for every `i < N`.
      Passing the same array twice leaves it as it was. */
  method SwapArrays<T>(a: array<T>, b: array<T>)
    requires a.Length == b.Length
    modifies a, b
    ensures a[..] == old(b[..]) && b[..] == old(a[..])
  {
    var i := 0;
    while i < a.Length
      invariant i <= a.Length
      invariant forall k :: 0 <= k < i ==> a[k] == old(b[k]) && b[k] == old(a[k])
      invariant forall k :: i <= k < a.Length ==> a[k] == old(a[k]) && b[k] == old(b[k])
    {
      a[i], b[i] := b[i], a[i];
      i := i + 1;
    }
  }

  // ---------------------------------------------------------------------
  // heap_value

  datatype Option<T> = None | Some(value: T)

  /** `heap_value<T>`: owns at most one heap object `p` of type `T`, with
      value semantics on copy and transfer of the object on move. */
  class HeapValue<T> {
    var p: Cell?<T>

    /** The value held, if any. */
    ghost function Contents(): Option<T>
      reads this, p
    {
      if p == null then None else Some(p.val)
    }

    /** `heap_value()` and `heap_value(nullptr)`: empty. */
    constructor()
      ensures Contents() == None
    {
      p := null;
    }

    /** `heap_value(in_place, args...)`: a new object built from the
        arguments, whose value is `v`. */
    constructor InPlace(v: T)
      ensures Contents() == Some(v) && fresh(p)
    {
      p := new Cell(v);
    }

    /** Copy construction is deep: a new object with the same value, or
        nothing when `u` is empty. */
    constructor Copy(u: HeapValue<T>)
      ensures Contents() == u.Contents()
      ensures p != null ==> fresh(p)
    {
      if u.p != null {
        p := new Cell(u.p.val);
      } else {
        p := null;
      }
    }

    /** Move construction takes `u`'s object and leaves `u` empty. */
    constructor Move(u: HeapValue<T>)
      modifies u
      ensures Contents() == old(u.Contents()) && p == old(u.p)
      ensures u.Contents() == None
    {
      p := u.p;
      u.p := null;
    }

    /** `operator bool`: whether a value is held. */
    function HasValue(): (b: bool)
      reads this, p
      ensures b <==> Contents().Some?
    {
      p != null
    }

    /** `value()` / `operator*`: the value held; calling it on an empty box
        is undefined, so the box must hold one. */
    function Value(): (v: T)
      requires p != null
      reads this, p
      ensures Contents() == Some(v)
    {
      p.val
    }

    /** `reset()`: destroys the object held, if any. */
    method Reset()
      modifies this
      ensures Contents() == None
    {
      p := null;
    }

    /** `assign(args...)` in all its forms: destroys the object held and
        builds a new one, whose value is `v`. */
    method Assign(v: T)
      modifies this
      ensures Contents() == Some(v) && fresh(p)
    {
      Reset();
      p := new Cell(v);
    }

    /** Copy assignment: nothing on self-assignment; otherwise takes `u`'s
        value, reusing the object already held when there is one, and leaves
        `u` as it was. */
    method CopyAssign(u: HeapValue<T>)
      modifies this, p
      ensures Contents() == old(u.Contents())
      ensures u.Contents() == old(u.Contents())
      ensures this == u ==> p == old(p)
      ensures old(p) != null && old(u.p) != null ==> p == old(p)
      ensures old(p) == null && old(u.p) != null && this != u ==> fresh(p)
    {
      if this == u {
        return;
      } else if u.p == null {
        Reset();
      } else if p != null {
        p.val := u.p.val;
      } else {
        p := new Cell(u.p.val);
      }
    }

    /** Move assignment: nothing on self-assignment; otherwise destroys the
        object held, takes `u`'s object and leaves `u` empty. */
    method MoveAssign(u: HeapValue<T>)
      modifies this, u
      ensures this == u ==> p == old(p)
      ensures this != u ==> p == old(u.p) && Contents() == old(u.Contents()) && u.Contents() == None
    {
      if this == u {
        return;
      }
      Reset();
      p := u.p;
      u.p := null;
    }

    /** `swap(other)`: exchanges the objects held. */
    method Swap(other: HeapValue<T>)
      modifies this, other
      ensures p == old(other.p) && other.p == old(p)
      ensures Contents() == old(other.Contents()) && other.Contents() == old(Contents())
    {
      p, other.p := other.p, p;
    }
  }
}
