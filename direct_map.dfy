/** `kblib::direct_map<char, V>`: an ordered map over the 256 values of a
    signed 8-bit `char`. Each key owns one slot, addressed by its ordinal
    (key + 128); a presence array says which slots hold a live value and a
    counter caches how many do. Cursors are ordinals, with 256 standing for
    `end()`; stepping a cursor scans the presence array for the next or
    previous live slot. */
module DirectMaps {
  import opened Presence

  /** `char` as the tests use it: signed, 8 bits. */
  type Key = k: int | -128 <= k < 128

  /** Number of keys in the domain. */
  const Domain: nat := 256
  /** The ordinal of the `end()` cursor. */
  const End: nat := 256

  /** The order-preserving bijection from keys onto [0, Domain). */
  function Ord(k: Key): (o: nat)
    ensures o < Domain
  {
    k + 128
  }

  /** Direct addressing keeps the key order: the slot order is the key
      order, and every slot belongs to exactly one key. */
  lemma OrdOrder(j: Key, k: Key)
    ensures j < k <==> Ord(j) < Ord(k)
    ensures KeyOf(Ord(k)) == k
  {
  }

  /** The key whose slot is ordinal `o`. */
  function KeyOf(o: nat): (k: Key)
    requires o < Domain
    ensures Ord(k) == o
  {
    o - 128
  }

  /** `min()`: the smallest key of the domain, whatever the map holds. */
  function Min(): (k: Key)
    ensures Ord(k) == 0
    ensures forall k': Key :: Ord(k) <= Ord(k')
  {
    -128
  }

  /** Why `at()` failed. */
  datatype Error = KeyNotFound

  datatype Result<T> = Ok(value: T) | Err(error: Error)

  /** The entries a presence array and a slot array stand for. */
  function ModelOf<V>(p: seq<bool>, s: seq<V>): map<Key, V>
    requires |p| == Domain && |s| == Domain
  {
    map k: Key | -128 <= k < 128 && p[Ord(k)] :: s[Ord(k)]
  }

  /** Keys present at ordinals below `n`. */
  ghost function KeysBelow(p: seq<bool>, n: nat): set<Key>
    requires |p| == Domain && n <= Domain
  {
    set k: Key | -128 <= k < n - 128 && p[Ord(k)]
  }

  lemma {:induction false} KeysBelowCard(p: seq<bool>, n: nat)
    requires |p| == Domain && n <= Domain
    ensures |KeysBelow(p, n)| == PopCount(p[..n])
    decreases n
  {
    if n == 0 {
      assert KeysBelow(p, 0) == {};
      assert p[..0] == [];
    } else {
      KeysBelowCard(p, n - 1);
      assert p[..n] == p[..n - 1] + [p[n - 1]];
      PopCountAppend(p[..n - 1], [p[n - 1]]);
      if p[n - 1] {
        assert KeysBelow(p, n) == KeysBelow(p, n - 1) + {KeyOf(n - 1)};
      } else {
        assert KeysBelow(p, n) == KeysBelow(p, n - 1);
      }
    }
  }

  /** The number of entries is the number of set presence flags. */
  lemma ModelCard<V>(p: seq<bool>, s: seq<V>)
    requires |p| == Domain && |s| == Domain
    ensures |ModelOf(p, s)| == PopCount(p)
  {
    KeysBelowCard(p, Domain);
    assert ModelOf(p, s).Keys == KeysBelow(p, Domain);
    assert p[..Domain] == p;
  }

  /** Installing a value in a slot updates the entry of that slot's key only. */
  lemma ModelUpdate<V>(p: seq<bool>, s: seq<V>, o: nat, v: V)
    requires |p| == Domain && |s| == Domain && o < Domain
    ensures ModelOf(p[o := true], s[o := v]) == ModelOf(p, s)[KeyOf(o) := v]
  {
    var m, m' := ModelOf(p, s), ModelOf(p[o := true], s[o := v]);
    assert forall k: Key :: k in m' <==> k in m || k == KeyOf(o);
  }

  /** The entries at ordinals `o` and up, in slot order: what a traversal
      from a cursor at `o` yields. */
  function EntriesOf<V>(p: seq<bool>, s: seq<V>, o: nat): (es: seq<(Key, V)>)
    requires |p| == Domain && |s| == Domain && o <= Domain
    decreases Domain - o
  {
    if o == Domain then
      []
    else
      (if p[o] then [(KeyOf(o), s[o])] else []) + EntriesOf(p, s, o + 1)
  }

  /** A traversal from `o` yields one pair per live slot at or after `o`. */
  lemma {:induction false} EntriesLength<V>(p: seq<bool>, s: seq<V>, o: nat)
    requires |p| == Domain && |s| == Domain && o <= Domain
    ensures |EntriesOf(p, s, o)| == PopCount(p[o..])
    decreases Domain - o
  {
    if o < Domain {
      assert p[o..][1..] == p[o + 1..];
      EntriesLength(p, s, o + 1);
    }
  }

  /** Every pair a traversal yields is a live slot's key and value. */
  lemma {:induction false} EntriesSound<V>(p: seq<bool>, s: seq<V>, o: nat)
    requires |p| == Domain && |s| == Domain && o <= Domain
    ensures forall e :: e in EntriesOf(p, s, o) ==>
              o <= Ord(e.0) && p[Ord(e.0)] && e.1 == s[Ord(e.0)]
    decreases Domain - o
  {
    if o < Domain {
      EntriesSound(p, s, o + 1);
    }
  }

  /** A traversal yields keys in strictly ascending order. */
  lemma {:induction false} EntriesAscending<V>(p: seq<bool>, s: seq<V>, o: nat)
    requires |p| == Domain && |s| == Domain && o <= Domain
    ensures forall i, j :: 0 <= i < j < |EntriesOf(p, s, o)| ==>
              EntriesOf(p, s, o)[i].0 < EntriesOf(p, s, o)[j].0
    decreases Domain - o
  {
    if o < Domain {
      EntriesAscending(p, s, o + 1);
      EntriesSound(p, s, o + 1);
      var tail := EntriesOf(p, s, o + 1);
      assert forall j :: 0 <= j < |tail| ==> tail[j] in tail;
    }
  }

  /** A traversal reaches every live slot at or after its start. */
  lemma {:induction false} EntriesComplete<V>(p: seq<bool>, s: seq<V>, o: nat, q: nat)
    requires |p| == Domain && |s| == Domain && o <= q < Domain && p[q]
    ensures (KeyOf(q), s[q]) in EntriesOf(p, s, o)
    decreases q - o
  {
    if o < q {
      EntriesComplete(p, s, o + 1, q);
    }
  }

  /** A full traversal yields as many pairs as the map has entries. */
  lemma EntriesCount<V>(p: seq<bool>, s: seq<V>)
    requires |p| == Domain && |s| == Domain
    ensures |EntriesOf(p, s, 0)| == |ModelOf(p, s)|
  {
    EntriesLength(p, s, 0);
    assert p[0..] == p;
    ModelCard(p, s);
  }

  /** Every pair of a full traversal is an entry of the map. */
  lemma EntriesInModel<V>(p: seq<bool>, s: seq<V>)
    requires |p| == Domain && |s| == Domain
    ensures forall e :: e in EntriesOf(p, s, 0) ==>
              e.0 in ModelOf(p, s) && ModelOf(p, s)[e.0] == e.1
  {
    EntriesSound(p, s, 0);
  }

  /** Every entry of the map turns up in a full traversal. */
  lemma ModelInEntries<V>(p: seq<bool>, s: seq<V>, k: Key)
    requires |p| == Domain && |s| == Domain && k in ModelOf(p, s)
    ensures (k, ModelOf(p, s)[k]) in EntriesOf(p, s, 0)
  {
    assert p[Ord(k)] && KeyOf(Ord(k)) == k && ModelOf(p, s)[k] == s[Ord(k)];
    EntriesComplete(p, s, 0, Ord(k));
  }

  /** A full traversal yields every entry of the map exactly once, as its
      (key, value) pair, in strictly ascending key order. */
  lemma FullTraversal<V>(p: seq<bool>, s: seq<V>)
    requires |p| == Domain && |s| == Domain
    ensures var es, m := EntriesOf(p, s, 0), ModelOf(p, s);
      && |es| == |m|
      && (forall i, j :: 0 <= i < j < |es| ==> es[i].0 < es[j].0)
      && (forall e :: e in es ==> e.0 in m && m[e.0] == e.1)
      && (forall k :: k in m ==> (k, m[k]) in es)
  {
    EntriesCount(p, s);
    EntriesAscending(p, s, 0);
    EntriesInModel(p, s);
    forall k | k in ModelOf(p, s)
      ensures (k, ModelOf(p, s)[k]) in EntriesOf(p, s, 0)
    {
      ModelInEntries(p, s, k);
    }
  }

  /** A traversal from a live slot yields its entry, then continues from the
      next live slot. */
  lemma EntriesStep<V>(p: seq<bool>, s: seq<V>, c: nat)
    requires |p| == Domain && |s| == Domain && c < Domain && p[c]
    ensures EntriesOf(p, s, c) == [(KeyOf(c), s[c])] + EntriesOf(p, s, NextSet(p, c + 1))
  {
    EntriesSkip(p, s, c + 1, NextSet(p, c + 1));
  }

  /** Absent slots contribute nothing to a traversal. */
  lemma {:induction false} EntriesSkip<V>(p: seq<bool>, s: seq<V>, a: nat, b: nat)
    requires |p| == Domain && |s| == Domain && a <= b <= Domain
    requires forall j :: a <= j < b ==> !p[j]
    ensures EntriesOf(p, s, a) == EntriesOf(p, s, b)
    decreases b - a
  {
    if a < b {
      EntriesSkip(p, s, a + 1, b);
    }
  }

  /** `c` is the cursor of the smallest key of `m` whose ordinal is at least
      `lo`, or `end()` when there is none. */
  ghost predicate FirstFrom<V>(m: map<Key, V>, lo: int, c: nat)
  {
    && c <= End
    && (c < End ==> lo <= c && KeyOf(c) in m)
    && (forall k :: k in m && lo <= Ord(k) ==> c <= Ord(k))
  }

  /** `c` is the ordinal of the largest key of `m` whose ordinal is at most
      `hi`, or -1 when there is none. */
  ghost predicate LastUpTo<V>(m: map<Key, V>, hi: int, c: int)
  {
    && -1 <= c < End
    && (c >= 0 ==> c <= hi && KeyOf(c) in m)
    && (forall k :: k in m && Ord(k) <= hi ==> Ord(k) <= c)
  }

  class DirectMap<V> {
    /** The value a value-initialised `V` holds: what `operator[]` installs
        in a slot it brings to life. It stands for `V()`, which depends only
        on the type, so every map of one `V` is built with the same `blank`;
        `Swap` relies on that when it leaves each map its own. */
    const blank: V
    /** The presence index: one flag per ordinal. */
    var present: array<bool>
    /** The value store: slot `o` is live exactly when `present[o]`. */
    var slots: array<V>
    /** The cached population count that `size()` returns. */
    var count: nat

    ghost predicate Valid()
      reads this, present, slots
    {
      && present.Length == Domain && slots.Length == Domain
      && present as object != slots as object
      && count == PopCount(present[..])
    }

    /** The entries the map holds. */
    ghost function Model(): map<Key, V>
      reads this, present, slots
      requires Valid()
    {
      ModelOf(present[..], slots[..])
    }

    /** A default-constructed map is empty. */
    constructor (blank: V)
      ensures Valid() && Model() == map[] && this.blank == blank
      ensures fresh(present) && fresh(slots)
    {
      this.blank := blank;
      present := new bool[Domain](_ => false);
      slots := new V[Domain](_ => blank);
      count := 0;
      new;
      PopCountZero(present[..]);
      assert forall k: Key :: !present[..][Ord(k)];
    }

    /** Copy construction: a deep copy into fresh storage, equal to the source. */
    constructor Copy(other: DirectMap<V>)
      requires other.Valid()
      ensures Valid() && Model() == other.Model() && blank == other.blank
      ensures fresh(present) && fresh(slots)
    {
      var p := new bool[Domain](_ => false);
      var s := new V[Domain](_ => other.blank);
      for o := 0 to Domain
        invariant forall j :: 0 <= j < o ==>
                    p[j] == other.present[j] && (p[j] ==> s[j] == other.slots[j])
      {
        p[o] := other.present[o];
        if p[o] {
          s[o] := other.slots[o];
        }
      }
      assert p[..] == other.present[..];
      blank := other.blank;
      present, slots, count := p, s, other.count;
      new;
      assert forall k: Key :: present[..][Ord(k)] ==> slots[..][Ord(k)] == other.slots[..][Ord(k)];
    }

    /** Move construction: takes over the source's entries and leaves the
        source a valid empty map. */
    constructor Move(other: DirectMap<V>)
      requires other.Valid()
      modifies other
      ensures Valid() && Model() == old(other.Model()) && blank == other.blank
      ensures other.Valid() && other.Model() == map[]
      ensures fresh(other.present) && fresh(other.slots)
    {
      var p := new bool[Domain](_ => false);
      var s := new V[Domain](_ => other.blank);
      blank := other.blank;
      present, slots, count := other.present, other.slots, other.count;
      new;
      other.present, other.slots, other.count := p, s, 0;
      PopCountZero(p[..]);
      assert forall k: Key :: !other.present[..][Ord(k)];
    }

    /** `size()`: the number of entries. */
    function Size(): (n: nat)
      reads this, present, slots
      requires Valid()
      ensures n == |Model()|
    {
      ModelCard(present[..], slots[..]);
      count
    }

    /** `empty()`. */
    function Empty(): (b: bool)
      reads this, present, slots
      requires Valid()
      ensures b <==> Model() == map[]
    {
      ModelCard(present[..], slots[..]);
      count == 0
    }

    /** `contains(k)`. */
    function Contains(k: Key): (b: bool)
      reads this, present, slots
      requires Valid()
      ensures b <==> k in Model()
    {
      present[Ord(k)]
    }

    /** `at(k)`: the value of a present key; an absent key is an error. */
    function At(k: Key): (r: Result<V>)
      reads this, present, slots
      requires Valid()
      ensures r.Ok? <==> k in Model()
      ensures r.Ok? ==> r.value == Model()[k]
      ensures r.Err? ==> r.error == KeyNotFound
    {
      if present[Ord(k)] then Ok(slots[Ord(k)]) else Err(KeyNotFound)
    }

    /** `find(k)`: the cursor of `k`, or `end()` when `k` is absent. */
    function Find(k: Key): (c: nat)
      reads this, present, slots
      requires Valid()
      ensures k in Model() ==> c == Ord(k)
      ensures k !in Model() ==> c == End
    {
      if present[Ord(k)] then Ord(k) else End
    }

    /** Dereferencing a cursor: the (key, value) pair of its entry. */
    function Deref(c: nat): (e: (Key, V))
      reads this, present, slots
      requires Valid() && c < End && present[c]
      ensures e.0 in Model() && Ord(e.0) == c && e.1 == Model()[e.0]
    {
      (KeyOf(c), slots[c])
    }

    /** The forward bit scan: first live ordinal at or after `from`. */
    method ScanUp(from: nat) returns (r: nat)
      requires Valid() && from <= End
      ensures r == NextSet(present[..], from)
    {
      r := from;
      while r < End && !present[r]
        invariant from <= r <= End
        invariant NextSet(present[..], r) == NextSet(present[..], from)
        decreases End - r
      {
        r := r + 1;
      }
    }

    /** The backward bit scan: last live ordinal at or before `from`, or -1. */
    method ScanDown(from: int) returns (r: int)
      requires Valid() && -1 <= from < End
      ensures r == PrevSet(present[..], from)
    {
      r := from;
      while r >= 0 && !present[r]
        invariant -1 <= r <= from
        invariant PrevSet(present[..], r) == PrevSet(present[..], from)
        decreases r + 1
      {
        r := r - 1;
      }
    }

    /** `begin()`: the cursor of the smallest present key, or `end()`. */
    method Begin() returns (c: nat)
      requires Valid()
      ensures c == NextSet(present[..], 0)
      ensures FirstFrom(Model(), 0, c)
    {
      c := ScanUp(0);
    }

    /** `lower_bound(k)`: the smallest present key not below `k`, or `end()`. */
    method LowerBound(k: Key) returns (c: nat)
      requires Valid()
      ensures c == NextSet(present[..], Ord(k))
      ensures FirstFrom(Model(), Ord(k), c)
    {
      c := ScanUp(Ord(k));
    }

    /** `upper_bound(k)`: the smallest present key above `k`, or `end()`. */
    method UpperBound(k: Key) returns (c: nat)
      requires Valid()
      ensures c == NextSet(present[..], Ord(k) + 1)
      ensures FirstFrom(Model(), Ord(k) + 1, c)
    {
      c := ScanUp(Ord(k) + 1);
    }

    /** Cursor `++`: from an entry to the next larger present key, or `end()`. */
    method Next(c: nat) returns (r: nat)
      requires Valid() && c < End && present[c]
      ensures r == NextSet(present[..], c + 1)
      ensures c < r && FirstFrom(Model(), c + 1, r)
    {
      r := ScanUp(c + 1);
    }

    /** Cursor `--`: to the next smaller present key. Stepping back from the
        first entry is not allowed. */
    method Prev(c: nat) returns (r: nat)
      requires Valid() && c <= End && (c < End ==> present[c])
      requires exists k :: k in Model() && Ord(k) < c
      ensures r as int == PrevSet(present[..], c - 1)
      ensures r < c && LastUpTo(Model(), c - 1, r)
    {
      var q := ScanDown(c - 1);
      r := q;
    }

    /** `std::next(c, n)`: `n` steps forward, which must not pass `end()`. */
    method Advance(c: nat, n: nat) returns (r: nat)
      requires Valid() && IsPos(present[..], c) && Rank(present[..], c) + n <= count
      ensures IsPos(present[..], r) && Rank(present[..], r) == Rank(present[..], c) + n
    {
      RankEnds(present[..]);
      r := c;
      var i := 0;
      while i < n
        invariant i <= n && IsPos(present[..], r)
        invariant Rank(present[..], r) == Rank(present[..], c) + i
      {
        RankNext(present[..], r);
        r := Next(r);
        i := i + 1;
      }
    }

    /** `std::prev(c, n)`: `n` steps back, which must not pass `begin()`. */
    method Retreat(c: nat, n: nat) returns (r: nat)
      requires Valid() && IsPos(present[..], c) && n <= Rank(present[..], c)
      ensures IsPos(present[..], r) && Rank(present[..], r) + n == Rank(present[..], c)
    {
      r := c;
      var i := 0;
      while i < n
        invariant i <= n && IsPos(present[..], r)
        invariant Rank(present[..], r) + i == Rank(present[..], c)
      {
        RankPrev(present[..], r);
        assert KeyOf(PrevSet(present[..], r - 1)) in Model();
        r := Prev(r);
        i := i + 1;
      }
    }

    /** `std::distance(a, b)`: the number of `++` steps from `a` to `b`. */
    method Distance(a: nat, b: nat) returns (d: nat)
      requires Valid() && IsPos(present[..], a) && IsPos(present[..], b) && a <= b
      ensures Rank(present[..], a) + d == Rank(present[..], b)
    {
      var c := a;
      d := 0;
      while c != b
        invariant a <= c <= b && IsPos(present[..], c)
        invariant Rank(present[..], a) + d == Rank(present[..], c)
        decreases b - c
      {
        RankNext(present[..], c);
        c := Next(c);
        d := d + 1;
      }
    }

    /** Range-for over the map: every entry once, as (key, value) pairs, in
        strictly ascending key order. */
    method Items() returns (es: seq<(Key, V)>)
      requires Valid()
      ensures es == EntriesOf(present[..], slots[..], 0)
    {
      ghost var p, sl := present[..], slots[..];
      var c := Begin();
      EntriesSkip(p, sl, 0, c);
      es := [];
      while c < End
        invariant IsPos(p, c)
        invariant es + EntriesOf(p, sl, c) == EntriesOf(p, sl, 0)
        decreases End - c
      {
        var e := Deref(c);
        assert e == (KeyOf(c), sl[c]);
        EntriesStep(p, sl, c);
        ghost var rest := EntriesOf(p, sl, NextSet(p, c + 1));
        assert es + EntriesOf(p, sl, c) == (es + [e]) + rest;
        c := Next(c);
        es := es + [e];
      }
    }

    /** `operator[](k)` read: the value of `k`, after installing `blank` in
        its slot when `k` was absent. */
    method Subscript(k: Key) returns (v: V)
      requires Valid()
      modifies this`count, present, slots
      ensures Valid()
      ensures v == if k in old(Model()) then old(Model())[k] else blank
      ensures Model() == old(Model())[k := v]
      ensures count == old(count) + if k in old(Model()) then 0 else 1
    {
      var o := Ord(k);
      if !present[o] {
        ghost var p0, s0 := present[..], slots[..];
        PopCountSet(p0, o);
        ModelUpdate(p0, s0, o, blank);
        present[o] := true;
        slots[o] := blank;
        count := count + 1;
        assert present[..] == p0[o := true] && slots[..] == s0[o := blank];
      }
      v := slots[o];
    }

    /** `map[k] = v`: installs or overwrites the entry of `k`; no other key's
        entry changes. */
    method Put(k: Key, v: V)
      requires Valid()
      modifies this`count, present, slots
      ensures Valid()
      ensures Model() == old(Model())[k := v]
      ensures count == old(count) + if k in old(Model()) then 0 else 1
    {
      var _ := Subscript(k);
      ghost var p0, s0 := present[..], slots[..];
      assert k in Model() && p0[Ord(k)];
      ModelUpdate(p0, s0, Ord(k), v);
      assert p0[Ord(k) := true] == p0;
      slots[Ord(k)] := v;
      assert slots[..] == s0[Ord(k) := v];
    }

    /** `swap(other)`: the two maps exchange their entries. */
    method Swap(other: DirectMap<V>)
      requires Valid() && other.Valid()
      modifies this, other
      ensures Valid() && other.Valid()
      ensures Model() == old(other.Model()) && other.Model() == old(Model())
    {
      present, other.present := other.present, present;
      slots, other.slots := other.slots, slots;
      count, other.count := other.count, count;
    }
  }

  /** `operator==`: both maps hold the same keys with equal values. */
  method Equal<V(==)>(a: DirectMap<V>, b: DirectMap<V>) returns (eq: bool)
    requires a.Valid() && b.Valid()
    ensures eq <==> a.Model() == b.Model()
  {
    for o := 0 to Domain
      invariant forall j :: 0 <= j < o ==>
                  a.present[j] == b.present[j] && (a.present[j] ==> a.slots[j] == b.slots[j])
    {
      if a.present[o] != b.present[o] || (a.present[o] && a.slots[o] != b.slots[o]) {
        var k := KeyOf(o);
        assert k in a.Model() <==> a.present[o];
        assert k in b.Model() <==> b.present[o];
        assert a.present[o] ==> a.Model()[k] == a.slots[o];
        assert b.present[o] ==> b.Model()[k] == b.slots[o];
        return false;
      }
    }
    assert forall k: Key :: a.present[..][Ord(k)] == b.present[..][Ord(k)];
    assert forall k: Key :: a.present[..][Ord(k)] ==> a.slots[..][Ord(k)] == b.slots[..][Ord(k)];
    return true;
  }
}

/** The `direct_map<char, std::string>` test case, replayed against the
    contracts above: every check of the test follows from them. */
module DirectMapScenario {
  import opened Presence
  import opened DirectMaps

  const A: Key := 'a' as int
  const B: Key := 'b' as int
  const Nul: Key := '\0' as int
  const Tab: Key := '\t' as int

  method Scenario()
  {
    var m := new DirectMap<string>("");
    var first := m.Begin();
    assert first == End;
    assert m.Size() == 0 && m.Empty() && !m.Contains(A);
    m.Put(A, "42");
    assert m.Contains(A) && !m.Contains(B);
    OneEntry(m);
    m.Put(Nul, "4567854");
    TwoEntries(m);
    m.Put(Min(), "2");
    var _, _, _ := ThreeEntries(m);
    Copies(m);
  }

  method OneEntry(m: DirectMap<string>)
    requires m.Valid() && m.Model() == map[A := "42"]
  {
    var first := m.Begin();
    assert first == m.Find(A) == Ord(A);
    assert m.At(A) == Ok("42") && m.Size() == 1;
    var n := m.Next(first);
    assert n == End && m.Deref(first).1 == "42";
    var last := m.Prev(End);
    assert last == first;
    var lb := m.LowerBound(A);
    var ub := m.UpperBound(A);
    assert lb == m.Find(A) && ub == End;
    var _ := OneItem(m);
  }

  /** The range-for over the one-entry map visits `('a', "42")` only. */
  method OneItem(m: DirectMap<string>) returns (items: seq<(Key, string)>)
    requires m.Valid() && m.Model() == map[A := "42"]
    ensures items == [(A, "42")]
  {
    items := m.Items();
    ghost var p, s := m.present[..], m.slots[..];
    assert ModelOf(p, s) == map[A := "42"];
    EntriesCount(p, s);
    ModelInEntries(p, s, A);
    assert |items| == 1 && (A, "42") in items;
    assert items[0] == (A, "42");
  }

  method TwoEntries(m: DirectMap<string>)
    requires m.Valid() && m.Model() == map[A := "42", Nul := "4567854"]
  {
    assert m.Contains(Nul) && m.At(A) == Ok("42") && m.At(Nul) == Ok("4567854");
    assert m.Size() == 2;
    var first := m.Begin();
    var n := m.Next(first);
    assert first == m.Find(Nul) && first != n && n != End;
    assert m.Deref(first).1 == "4567854";
    var _, _, _ := TwoSteps(m);
    var ub := m.UpperBound(Tab);
    assert ub == m.Find(A);
  }

  /** With two entries, two steps from `begin()` reach `end()`, two steps
      back from `end()` reach `begin()`, and the distance is 2. */
  method TwoSteps(m: DirectMap<string>) returns (e: nat, b: nat, d: nat)
    requires m.Valid() && m.Model() == map[A := "42", Nul := "4567854"]
    ensures e == End && b == NextSet(m.present[..], 0) && d == 2
  {
    assert m.Size() == 2;
    var first := m.Begin();
    ghost var p := m.present[..];
    RankEnds(p);
    e := m.Advance(first, 2);
    RankInjective(p, e, End);
    b := m.Retreat(End, 2);
    RankInjective(p, b, first);
    d := m.Distance(first, End);
  }

  /** With `min()` added as a third key, three steps from `begin()` reach
      `end()`, three steps back reach `begin()`, and the distance is 3. */
  method ThreeEntries(m: DirectMap<string>) returns (e: nat, b: nat, d: nat)
    requires m.Valid()
    requires m.Model() == map[A := "42", Nul := "4567854", Min() := "2"]
    ensures e == End && b == NextSet(m.present[..], 0) && d == 3
  {
    assert m.At(A) == Ok("42") && m.At(Min()) == Ok("2");
    assert Min() != Nul && m.Size() == 3;
    var first := m.Begin();
    var f := m.Find(Min());
    var n := m.Next(first);
    assert m.Deref(f).1 == "2";
    assert first != n && first != End && n != End;
    ghost var p := m.present[..];
    RankEnds(p);
    e := m.Advance(first, 3);
    RankInjective(p, e, End);
    b := m.Retreat(End, 3);
    RankInjective(p, b, first);
    d := m.Distance(first, End);
  }

  /** Copying, moving and swapping back: every comparison the test makes
      holds, and `m` ends up holding the entries it started with. */
  method Copies(m: DirectMap<string>)
    requires m.Valid()
    modifies m
    ensures m.Valid() && m.Model() == old(m.Model())
  {
    var m2 := new DirectMap.Copy(m);
    var eq := Equal(m, m2);
    assert eq;
    var m3 := new DirectMap.Move(m);
    eq := Equal(m2, m3);
    assert eq;
    m2.Swap(m);
    eq := Equal(m, m3);
    assert eq;
  }
}
