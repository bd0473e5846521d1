/** Facts about sequences that the masks of the search are kept in, stated for
    any element type: first occurrences, lists of distinct values in order of
    first appearance, and strictly increasing index lists. */
module Seqs {

  /** The position of the first occurrence of `x` in `s`. */
  function FirstIndex<T(==)>(s: seq<T>, x: T): (r: nat)
    requires x in s
    ensures r < |s| && s[r] == x && x !in s[..r]
  {
    var init := s[..|s| - 1];
    if x in init then FirstIndex(init, x) else |s| - 1
  }

  /** Extending a sequence leaves the first occurrence of what it already holds in place. */
  lemma FirstIndexPrefix<T>(s: seq<T>, x: T, u: nat)
    requires u <= |s| && x in s[..u]
    ensures FirstIndex(s[..u], x) == FirstIndex(s, x)
  {
    var r := FirstIndex(s[..u], x);
    assert s[..u][r] == s[r];
    assert s[..u][..r] == s[..r];
  }

  predicate NoDuplicates<T(==)>(s: seq<T>) {
    forall a, b :: 0 <= a < b < |s| ==> s[a] != s[b]
  }

  /** `d` lists the elements of `s` that satisfy `keep`, each once, in the
      order in which they first occur in `s`. */
  ghost predicate FirstOccurrences<T(!new)>(s: seq<T>, d: seq<T>, keep: T -> bool) {
    && (forall t :: 0 <= t < |d| ==> keep(d[t]))
    && NoDuplicates(d)
    && (forall x :: x in d <==> x in s && keep(x))
    && (forall a, b :: 0 <= a < b < |d| ==> FirstIndex(s, d[a]) < FirstIndex(s, d[b]))
  }

  /** Appending `y` to `s`, and to `d` when it is kept and new, keeps `FirstOccurrences`. */
  lemma FirstOccurrencesSnoc<T(!new)>(s: seq<T>, y: T, d: seq<T>, keep: T -> bool)
    requires FirstOccurrences(s, d, keep)
    ensures FirstOccurrences(s + [y], if keep(y) && y !in d then d + [y] else d, keep)
  {
    var s' := s + [y];
    assert s'[..|s|] == s;
    var d' := if keep(y) && y !in d then d + [y] else d;
    forall a, b | 0 <= a < b < |d'| ensures FirstIndex(s', d'[a]) < FirstIndex(s', d'[b]) {
      FirstIndexPrefix(s', d'[a], |s|);
      if b < |d| {
        FirstIndexPrefix(s', d'[b], |s|);
      }
    }
  }

  /** `FirstOccurrences` pins `d` down: two lists that both satisfy it are equal. */
  lemma {:induction false} FirstOccurrencesUnique<T(!new)>(s: seq<T>, d1: seq<T>, d2: seq<T>, keep: T -> bool)
    requires FirstOccurrences(s, d1, keep) && FirstOccurrences(s, d2, keep)
    ensures d1 == d2
    decreases |d1|
  {
    if d1 == [] || d2 == [] {
      FirstOccurrencesEmpty(s, d1, d2, keep);
    } else {
      FirstOccurrencesSameLast(s, d1, d2, keep);
      FirstOccurrencesBefore(s, d1, keep);
      FirstOccurrencesBefore(s, d2, keep);
      FirstOccurrencesUnique(s[..FirstIndex(s, d1[|d1| - 1])], d1[..|d1| - 1], d2[..|d2| - 1], keep);
      assert d1 == d1[..|d1| - 1] + [d1[|d1| - 1]];
      assert d2 == d2[..|d2| - 1] + [d2[|d2| - 1]];
    }
  }

  lemma FirstOccurrencesEmpty<T(!new)>(s: seq<T>, d1: seq<T>, d2: seq<T>, keep: T -> bool)
    requires FirstOccurrences(s, d1, keep) && FirstOccurrences(s, d2, keep)
    ensures d1 == [] <==> d2 == []
  {
    if d1 != [] {
      assert d1[0] in d1;
    }
    if d2 != [] {
      assert d2[0] in d2;
    }
  }

  /** The kept element whose first occurrence comes last is last in both lists. */
  lemma FirstOccurrencesSameLast<T(!new)>(s: seq<T>, d1: seq<T>, d2: seq<T>, keep: T -> bool)
    requires FirstOccurrences(s, d1, keep) && FirstOccurrences(s, d2, keep)
    requires d1 != [] && d2 != []
    ensures d1[|d1| - 1] == d2[|d2| - 1]
  {
    var x1, x2 := d1[|d1| - 1], d2[|d2| - 1];
    assert x1 in d1 && x2 in d2;
    var a :| 0 <= a < |d2| && d2[a] == x1;
    var b :| 0 <= b < |d1| && d1[b] == x2;
    var f1, f2 := FirstIndex(s, x1), FirstIndex(s, x2);
    assert a < |d2| - 1 ==> f1 < f2;
    assert b < |d1| - 1 ==> f2 < f1;
  }

  /** Dropping the last listed element and cutting `s` at its first occurrence keeps `FirstOccurrences`. */
  lemma FirstOccurrencesBefore<T(!new)>(s: seq<T>, d: seq<T>, keep: T -> bool)
    requires FirstOccurrences(s, d, keep) && d != []
    ensures FirstOccurrences(s[..FirstIndex(s, d[|d| - 1])], d[..|d| - 1], keep)
  {
    BeforeMembers(s, d, keep);
    forall a | 0 <= a < |d| - 1 ensures d[a] in s[..FirstIndex(s, d[|d| - 1])] {
      assert d[a] in d[..|d| - 1];
    }
    BeforeOrder(s, d, keep);
  }

  lemma BeforeMembers<T(!new)>(s: seq<T>, d: seq<T>, keep: T -> bool)
    requires FirstOccurrences(s, d, keep) && d != []
    ensures forall y :: y in d[..|d| - 1] <==> y in s[..FirstIndex(s, d[|d| - 1])] && keep(y)
  {
    var cut := FirstIndex(s, d[|d| - 1]);
    var s', d' := s[..cut], d[..|d| - 1];
    forall y ensures y in d' <==> y in s' && keep(y) {
      if y in d' {
        var a :| 0 <= a < |d'| && d'[a] == y;
        assert FirstIndex(s, y) < cut;
        assert s'[FirstIndex(s, y)] == y;
      }
      if y in s' && keep(y) {
        var t :| 0 <= t < cut && s'[t] == y;
        assert y in d;
        var a :| 0 <= a < |d| && d[a] == y;
        assert y == d'[a];
      }
    }
  }

  lemma BeforeOrder<T(!new)>(s: seq<T>, d: seq<T>, keep: T -> bool)
    requires FirstOccurrences(s, d, keep) && d != []
    requires forall a :: 0 <= a < |d| - 1 ==> d[a] in s[..FirstIndex(s, d[|d| - 1])]
    ensures forall a, b :: 0 <= a < b < |d| - 1 ==>
      FirstIndex(s[..FirstIndex(s, d[|d| - 1])], d[a]) < FirstIndex(s[..FirstIndex(s, d[|d| - 1])], d[b])
  {
    var cut := FirstIndex(s, d[|d| - 1]);
    var d' := d[..|d| - 1];
    forall a, b | 0 <= a < b < |d'|
      ensures FirstIndex(s[..cut], d[a]) < FirstIndex(s[..cut], d[b])
    {
      assert d[a] == d'[a] && d[b] == d'[b];
      FirstIndexPrefix(s, d[a], cut);
      FirstIndexPrefix(s, d[b], cut);
    }
  }

  predicate StrictlyIncreasing(s: seq<nat>) {
    forall a, b :: 0 <= a < b < |s| ==> s[a] < s[b]
  }

  /** Two strictly increasing lists with the same elements are the same list. */
  lemma {:induction false} StrictlyIncreasingUnique(r1: seq<nat>, r2: seq<nat>)
    requires StrictlyIncreasing(r1) && StrictlyIncreasing(r2)
    requires forall j :: j in r1 <==> j in r2
    ensures r1 == r2
    decreases |r1|
  {
    if r1 != [] {
      assert r1[|r1| - 1] in r2;
    }
    if r2 != [] {
      assert r2[|r2| - 1] in r1;
    }
    if r1 != [] {
      IncreasingSameLast(r1, r2);
      IncreasingSameInit(r1, r2, r1[..|r1| - 1], r2[..|r2| - 1]);
      StrictlyIncreasingUnique(r1[..|r1| - 1], r2[..|r2| - 1]);
      assert r1 == r1[..|r1| - 1] + [r1[|r1| - 1]];
      assert r2 == r2[..|r2| - 1] + [r2[|r2| - 1]];
    }
  }

  /** Two strictly increasing lists with the same elements end alike, ... */
  lemma IncreasingSameLast(r1: seq<nat>, r2: seq<nat>)
    requires StrictlyIncreasing(r1) && StrictlyIncreasing(r2) && r1 != [] && r2 != []
    requires forall j :: j in r1 <==> j in r2
    ensures r1[|r1| - 1] == r2[|r2| - 1]
  {
    var m1, m2 := r1[|r1| - 1], r2[|r2| - 1];
    assert m1 in r2 && m2 in r1;
  }

  /** ... and what comes before the last elements has the same elements again. */
  lemma IncreasingSameInit(r1: seq<nat>, r2: seq<nat>, i1: seq<nat>, i2: seq<nat>)
    requires StrictlyIncreasing(r1) && StrictlyIncreasing(r2) && r1 != [] && r2 != []
    requires forall j :: j in r1 <==> j in r2
    requires r1[|r1| - 1] == r2[|r2| - 1]
    requires i1 == r1[..|r1| - 1] && i2 == r2[..|r2| - 1]
    ensures forall j :: j in i1 <==> j in i2
  {
    var m1, m2 := r1[|r1| - 1], r2[|r2| - 1];
    forall j ensures j in i1 <==> j in i2 {
      if j in i1 {
        var a :| 0 <= a < |i1| && i1[a] == j;
        assert j in r2 && j != m2;
        var b :| 0 <= b < |r2| && r2[b] == j;
        assert i2[b] == j;
      }
      if j in i2 {
        var b :| 0 <= b < |i2| && i2[b] == j;
        assert j in r1 && j != m1;
        var a :| 0 <= a < |r1| && r1[a] == j;
        assert i1[a] == j;
      }
    }
  }

  /** The values `join(s[a], s[b])` over the pairs `a < b` of positions whose
      elements satisfy `ok`, and that come before `(i, j)` in the order
      "by `a`, then by `b`". */
  ghost function PairJoinsBefore<T(!new)>(s: seq<T>, ok: (T, T) -> bool, join: (T, T) -> T, i: nat, j: nat): set<T> {
    set a, b | 0 <= a < b < |s| && (a < i || (a == i && b < j)) && ok(s[a], s[b]) :: join(s[a], s[b])
  }

  /** The values `join(s[a], s[b])` over all pairs `a < b` whose elements satisfy `ok`. */
  ghost function PairJoins<T(!new)>(s: seq<T>, ok: (T, T) -> bool, join: (T, T) -> T): set<T> {
    set a, b | 0 <= a < b < |s| && ok(s[a], s[b]) :: join(s[a], s[b])
  }

  /** Visiting pair `(i, j)` adds its join exactly when it satisfies `ok`. */
  lemma PairJoinsStep<T(!new)>(s: seq<T>, ok: (T, T) -> bool, join: (T, T) -> T, i: nat, j: nat)
    requires i < j < |s|
    ensures PairJoinsBefore(s, ok, join, i, j + 1) ==
            PairJoinsBefore(s, ok, join, i, j) + if ok(s[i], s[j]) then {join(s[i], s[j])} else {}
  {}

  /** Once row `i` is done, every pair with first position `i` has been visited. */
  lemma PairJoinsRowDone<T(!new)>(s: seq<T>, ok: (T, T) -> bool, join: (T, T) -> T, i: nat)
    requires i < |s|
    ensures PairJoinsBefore(s, ok, join, i, |s|) == PairJoinsBefore(s, ok, join, i + 1, 0)
    ensures PairJoinsBefore(s, ok, join, i, 0) == PairJoinsBefore(s, ok, join, i, i + 1)
  {}

  /** A pair `a < b` that satisfies `ok` puts its join among the pair joins. */
  lemma PairJoinsMember<T(!new)>(s: seq<T>, ok: (T, T) -> bool, join: (T, T) -> T, a: nat, b: nat)
    requires a < b < |s| && ok(s[a], s[b])
    ensures join(s[a], s[b]) in PairJoins(s, ok, join)
  {}

  /** Every pair join comes from some pair. */
  lemma PairJoinsWitness<T(!new)>(s: seq<T>, ok: (T, T) -> bool, join: (T, T) -> T, v: T)
    requires v in PairJoins(s, ok, join)
    ensures exists a, b :: 0 <= a < b < |s| && ok(s[a], s[b]) && v == join(s[a], s[b])
  {}

  /** Nothing comes before the first pair, and every pair comes before row `|s|`. */
  lemma PairJoinsEnds<T(!new)>(s: seq<T>, ok: (T, T) -> bool, join: (T, T) -> T)
    ensures PairJoinsBefore(s, ok, join, 0, 0) == {}
    ensures PairJoinsBefore(s, ok, join, |s|, 0) == PairJoins(s, ok, join)
  {}

  /** When `m - 1` belongs to a strictly increasing list of values below `m`,
      it is the last element, and what comes before it lists the rest. */
  lemma IncreasingLast(ks: seq<nat>, m: nat)
    requires StrictlyIncreasing(ks) && m > 0 && m - 1 in ks
    requires forall t :: 0 <= t < |ks| ==> ks[t] < m
    ensures ks != [] && ks[|ks| - 1] == m - 1
    ensures StrictlyIncreasing(ks[..|ks| - 1])
    ensures forall k :: k in ks[..|ks| - 1] <==> k in ks && k < m - 1
    ensures forall t :: 0 <= t < |ks| - 1 ==> ks[t] < m - 1
  {
    var a :| 0 <= a < |ks| && ks[a] == m - 1;
    var init := ks[..|ks| - 1];
    forall k ensures k in init <==> k in ks && k < m - 1 {
      if k in init {
        var b :| 0 <= b < |init| && init[b] == k;
        assert ks[b] < ks[|ks| - 1];
      }
      if k in ks && k < m - 1 {
        var b :| 0 <= b < |ks| && ks[b] == k;
        assert init[b] == k;
      }
    }
  }

  // ---------------------------------------------------------------------
  // Sums of a weight over an index list and over an index range.

  /** The sum of `f` over the elements of `ks`. */
  function SumOver(ks: seq<nat>, f: nat -> nat): nat {
    if ks == [] then 0 else SumOver(ks[..|ks| - 1], f) + f(ks[|ks| - 1])
  }

  /** The sum of `f` over `0 .. m-1`. */
  function SumBelow(m: nat, f: nat -> nat): nat {
    if m == 0 then 0 else SumBelow(m - 1, f) + f(m - 1)
  }

  lemma SumOverSnoc(ks: seq<nat>, u: nat, f: nat -> nat)
    requires u < |ks|
    ensures SumOver(ks[..u + 1], f) == SumOver(ks[..u], f) + f(ks[u])
  {
    assert ks[..u + 1][..u] == ks[..u];
  }

  /** Summing `f` along a strictly increasing list of values below `m` is summing
      `g` over all of `0 .. m-1`, when `g` agrees with `f` on the list and is zero off it. */
  lemma {:induction false} SumOverIncreasing(ks: seq<nat>, m: nat, f: nat -> nat, g: nat -> nat)
    requires StrictlyIncreasing(ks)
    requires forall t :: 0 <= t < |ks| ==> ks[t] < m
    requires forall k: nat :: k < m && k in ks ==> f(k) == g(k)
    requires forall k: nat :: k < m && k !in ks ==> g(k) == 0
    ensures SumOver(ks, f) == SumBelow(m, g)
    decreases m
  {
    if ks == [] {
      SumBelowZero(m, g);
    } else if ks[0] < m && m - 1 in ks {
      IncreasingLast(ks, m);
      SumOverIncreasing(ks[..|ks| - 1], m - 1, f, g);
    } else {
      BelowPredecessor(ks, m);
      SumOverIncreasing(ks, m - 1, f, g);
    }
  }

  /** Values below `m` other than `m - 1` are below `m - 1`. */
  lemma BelowPredecessor(ks: seq<nat>, m: nat)
    requires ks != [] && m - 1 !in ks
    requires forall t :: 0 <= t < |ks| ==> ks[t] < m
    ensures m > 0
    ensures forall t :: 0 <= t < |ks| ==> ks[t] < m - 1
  {
    assert ks[0] < m;
    forall t | 0 <= t < |ks| ensures ks[t] < m - 1 {
      assert ks[t] in ks;
    }
  }

  /** Sums of two weights that agree below `m` agree. */
  lemma {:induction false} SumBelowPointwise(m: nat, f: nat -> nat, g: nat -> nat)
    requires forall k: nat :: k < m ==> f(k) == g(k)
    ensures SumBelow(m, f) == SumBelow(m, g)
  {
    if m > 0 {
      SumBelowPointwise(m - 1, f, g);
    }
  }

  /** A weight that is zero below `m` sums to zero. */
  lemma {:induction false} SumBelowZero(m: nat, f: nat -> nat)
    requires forall k: nat :: k < m ==> f(k) == 0
    ensures SumBelow(m, f) == 0
  {
    if m > 0 {
      SumBelowZero(m - 1, f);
    }
  }
}
