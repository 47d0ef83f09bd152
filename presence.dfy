/** The presence index of a direct-addressed map, as a value: one flag per
    ordinal of the key domain. The functions here are the specification of the
    bit scans the map's cursor performs (next set ordinal at or after a
    position, previous set ordinal at or before one) and of the population
    count that `size()` reports. A cursor position is an ordinal whose flag is
    set, or `|p|`, the end sentinel; its rank is the number of set flags below it. */
module Presence {

  /** Number of set flags. */
  function PopCount(s: seq<bool>): (n: nat)
    ensures n <= |s|
  {
    if s == [] then 0 else (if s[0] then 1 else 0) + PopCount(s[1..])
  }

  lemma {:induction false} PopCountAppend(a: seq<bool>, b: seq<bool>)
    ensures PopCount(a + b) == PopCount(a) + PopCount(b)
  {
    if a == [] {
      assert a + b == b;
    } else {
      assert (a + b)[1..] == a[1..] + b;
      PopCountAppend(a[1..], b);
    }
  }

  /** No flag is set exactly when the count is zero. */
  lemma {:induction false} PopCountZero(s: seq<bool>)
    ensures PopCount(s) == 0 <==> forall i :: 0 <= i < |s| ==> !s[i]
  {
    if s != [] {
      PopCountZero(s[1..]);
      assert forall i :: 1 <= i < |s| ==> s[i] == s[1..][i - 1];
    }
  }

  /** Setting a clear flag raises the count by one. */
  lemma PopCountSet(s: seq<bool>, i: nat)
    requires i < |s| && !s[i]
    ensures PopCount(s[i := true]) == PopCount(s) + 1
  {
    assert s == s[..i] + [s[i]] + s[i + 1..];
    assert s[i := true] == s[..i] + [true] + s[i + 1..];
    PopCountAppend(s[..i] + [s[i]], s[i + 1..]);
    PopCountAppend(s[..i], [s[i]]);
    PopCountAppend(s[..i] + [true], s[i + 1..]);
    PopCountAppend(s[..i], [true]);
  }

  /** Smallest set ordinal at or after `from`, or `|p|` when there is none. */
  function NextSet(p: seq<bool>, from: nat): (r: nat)
    requires from <= |p|
    ensures from <= r <= |p|
    ensures r < |p| ==> p[r]
    ensures forall j :: from <= j < r ==> !p[j]
    decreases |p| - from
  {
    if from == |p| then |p| else if p[from] then from else NextSet(p, from + 1)
  }

  /** Largest set ordinal at or before `from`, or -1 when there is none. */
  function PrevSet(p: seq<bool>, from: int): (r: int)
    requires -1 <= from < |p|
    ensures -1 <= r <= from
    ensures r >= 0 ==> p[r]
    ensures forall j :: r < j <= from ==> !p[j]
    decreases from + 1
  {
    if from == -1 then -1 else if p[from] then from else PrevSet(p, from - 1)
  }

  /** A cursor position: a set ordinal or the end sentinel. */
  ghost predicate IsPos(p: seq<bool>, o: int)
  {
    0 <= o <= |p| && (o < |p| ==> p[o])
  }

  /** Number of set flags strictly below `o`: how many steps from the first
      position reach `o`. */
  ghost function Rank(p: seq<bool>, o: nat): nat
    requires o <= |p|
  {
    PopCount(p[..o])
  }

  /** Clear flags contribute nothing to the count. */
  lemma ClearRunCount(p: seq<bool>, a: nat, b: nat)
    requires a <= b <= |p|
    requires forall j :: a <= j < b ==> !p[j]
    ensures Rank(p, b) == Rank(p, a)
  {
    assert p[..b] == p[..a] + p[a..b];
    PopCountAppend(p[..a], p[a..b]);
    PopCountZero(p[a..b]);
  }

  /** The first position has rank 0, the end has rank PopCount(p). */
  lemma RankEnds(p: seq<bool>)
    ensures IsPos(p, NextSet(p, 0)) && Rank(p, NextSet(p, 0)) == 0
    ensures IsPos(p, |p|) && Rank(p, |p|) == PopCount(p)
  {
    ClearRunCount(p, 0, NextSet(p, 0));
    assert p[..0] == [];
    assert p[..|p|] == p;
  }

  /** Stepping forward from a set ordinal reaches the next position, one rank up. */
  lemma RankNext(p: seq<bool>, o: nat)
    requires IsPos(p, o) && o < |p|
    ensures IsPos(p, NextSet(p, o + 1))
    ensures Rank(p, NextSet(p, o + 1)) == Rank(p, o) + 1
  {
    assert p[..o + 1] == p[..o] + [p[o]];
    PopCountAppend(p[..o], [p[o]]);
    ClearRunCount(p, o + 1, NextSet(p, o + 1));
  }

  /** Stepping back from a position of positive rank reaches a set ordinal,
      one rank down. */
  lemma RankPrev(p: seq<bool>, o: nat)
    requires IsPos(p, o) && Rank(p, o) > 0
    ensures o > 0 && PrevSet(p, o - 1) >= 0
    ensures IsPos(p, PrevSet(p, o - 1))
    ensures Rank(p, PrevSet(p, o - 1)) + 1 == Rank(p, o)
  {
    var q := PrevSet(p, o - 1);
    if q == -1 {
      ClearRunCount(p, 0, o);
      assert false;
    } else {
      assert p[..q + 1] == p[..q] + [p[q]];
      PopCountAppend(p[..q], [p[q]]);
      ClearRunCount(p, q + 1, o);
    }
  }

  /** A position is determined by its rank. */
  lemma RankInjective(p: seq<bool>, a: nat, b: nat)
    requires IsPos(p, a) && IsPos(p, b) && Rank(p, a) == Rank(p, b)
    ensures a == b
  {
    if a < b {
      RankStrict(p, a, b);
    } else if b < a {
      RankStrict(p, b, a);
    }
  }

  lemma RankStrict(p: seq<bool>, a: nat, b: nat)
    requires IsPos(p, a) && a < b <= |p|
    ensures Rank(p, a) < Rank(p, b)
  {
    assert p[..b] == p[..a] + [p[a]] + p[a + 1..b];
    PopCountAppend(p[..a] + [p[a]], p[a + 1..b]);
    PopCountAppend(p[..a], [p[a]]);
  }
}
