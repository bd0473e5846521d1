/** The counting search `getQuints` (solve.cpp:84-118) and the vector append
    `add` (solve.cpp:64-69). */
module Quints {
  import opened Bits
  import opened Seqs
  import opened Cook
  import opened Graph

  /** The letters tried, one at a time, as the letter no word uses (solve.cpp:89). */
  const Missing: seq<char> := ['j', 'q', 'x']

  /** The test at solve.cpp:100-102 for the letter at position `b`, given the
      letters `x3` that the triple leaves unused: flip `b` in `x3` and look the
      result up among the pair unions `p` when it has ten letters. */
  predicate HitAt(p: set<bv32>, x3: bv32, b: BitIndex) {
    var q := Single(b) ^ x3;
    PopCount(q) == 10 && q in p
  }

  /** `1 << (missing[s] - 'a')` (solve.cpp:100). */
  function MissingBit(s: nat): bv32
    requires s < 3
  {
    Single(LetterIndex(Missing[s]))
  }

  /** The same test for the `s`-th missing letter. */
  predicate Hit(p: set<bv32>, x3: bv32, s: nat)
    requires s < 3
  {
    HitAt(p, x3, LetterIndex(Missing[s]))
  }

  /** The number of the first `s` missing letters that pass the test. */
  function HitsBelow(p: set<bv32>, x3: bv32, s: nat): nat
    requires s <= 3
  {
    if s == 0 then 0 else HitsBelow(p, x3, s - 1) + if Hit(p, x3, s - 1) then 1 else 0
  }

  function Hits(p: set<bv32>, x3: bv32): nat {
    HitsBelow(p, x3, 3)
  }

  /** Every list in `adj` holds indices of `cooked`: what `getQuints` needs of its argument. */
  ghost predicate ValidAdj(cooked: seq<bv32>, adj: seq<seq<nat>>) {
    && |adj| == |cooked|
    && forall i, t :: 0 <= i < |adj| && 0 <= t < |adj[i]| ==> adj[i][t] < |cooked|
  }

  /** The lists `adjList` builds are valid arguments of `getQuints`. */
  lemma AdjacencyValid(cooked: seq<bv32>, adj: seq<seq<nat>>)
    requires IsAdjacency(cooked, adj)
    ensures ValidAdj(cooked, adj)
  {
    forall i, t | 0 <= i < |adj| && 0 <= t < |adj[i]| ensures adj[i][t] < |cooked| {
      assert IsAdjRow(cooked, i, adj[i]);
      assert adj[i][t] in adj[i];
    }
  }

  // ---------------------------------------------------------------------
  // The count as the loops of getQuints accumulate it.

  /** What the body of the `k` loop adds to `count` for the triple `(i, j, k)`
      (solve.cpp:96-102). */
  function TripleTerm(cooked: seq<bv32>, p: set<bv32>, i: nat, j: nat, k: nat): nat
    requires i < |cooked| && j < |cooked| && k < |cooked|
  {
    var x2 := Union(cooked[i], cooked[j]);
    if !Disjoint(x2, cooked[k]) then 0 else Hits(p, Complement26(Union(x2, cooked[k])))
  }

  /** `TripleTerm` as a weight on every index (zero past the end). */
  function TripleTerms(cooked: seq<bv32>, p: set<bv32>, i: nat, j: nat): nat -> nat
    requires i < |cooked| && j < |cooked|
  {
    (k: nat) => if k < |cooked| then TripleTerm(cooked, p, i, j, k) else 0
  }

  /** What the `k` loop adds to `count` when it walks `ks`. */
  function KSum(cooked: seq<bv32>, p: set<bv32>, i: nat, j: nat, ks: seq<nat>): nat
    requires i < |cooked| && j < |cooked|
  {
    SumOver(ks, TripleTerms(cooked, p, i, j))
  }

  /** What one round of the `j` loop adds, as a weight on every index. */
  function PairTerms(cooked: seq<bv32>, adj: seq<seq<nat>>, p: set<bv32>, i: nat): nat -> nat
    requires |adj| == |cooked| && i < |cooked|
  {
    (j: nat) => if j < |cooked| then KSum(cooked, p, i, j, adj[j]) else 0
  }

  /** What the `j` loop adds to `count` when it walks `js`. */
  function JSum(cooked: seq<bv32>, adj: seq<seq<nat>>, p: set<bv32>, i: nat, js: seq<nat>): nat
    requires |adj| == |cooked| && i < |cooked|
  {
    SumOver(js, PairTerms(cooked, adj, p, i))
  }

  /** What one round of the `i` loop adds, as a weight on every index. */
  function RowTerms(cooked: seq<bv32>, adj: seq<seq<nat>>, p: set<bv32>): nat -> nat
    requires |adj| == |cooked|
  {
    (i: nat) => if i < |cooked| then JSum(cooked, adj, p, i, adj[i]) else 0
  }

  /** What the first `m` rounds of the `i` loop add to `count`. */
  function ISum(cooked: seq<bv32>, adj: seq<seq<nat>>, p: set<bv32>, m: nat): nat
    requires |adj| == |cooked|
  {
    SumBelow(m, RowTerms(cooked, adj, p))
  }

  /** The value `getQuints` returns. */
  function QuintCount(cooked: seq<bv32>, adj: seq<seq<nat>>, p: set<bv32>): nat
    requires |adj| == |cooked|
  {
    ISum(cooked, adj, p, |cooked|)
  }

  lemma KSumSnoc(cooked: seq<bv32>, p: set<bv32>, i: nat, j: nat, ks: seq<nat>, u: nat)
    requires i < |cooked| && j < |cooked| && u < |ks| && ks[u] < |cooked|
    ensures KSum(cooked, p, i, j, ks[..u + 1]) == KSum(cooked, p, i, j, ks[..u]) + TripleTerm(cooked, p, i, j, ks[u])
  {
    SumOverSnoc(ks, u, TripleTerms(cooked, p, i, j));
  }

  lemma JSumSnoc(cooked: seq<bv32>, adj: seq<seq<nat>>, p: set<bv32>, i: nat, js: seq<nat>, t: nat)
    requires |adj| == |cooked| && i < |cooked| && t < |js| && js[t] < |cooked|
    ensures JSum(cooked, adj, p, i, js[..t + 1]) == JSum(cooked, adj, p, i, js[..t]) + KSum(cooked, p, i, js[t], adj[js[t]])
  {
    SumOverSnoc(js, t, PairTerms(cooked, adj, p, i));
  }

  lemma ISumSnoc(cooked: seq<bv32>, adj: seq<seq<nat>>, p: set<bv32>, i: nat)
    requires |adj| == |cooked| && i < |cooked|
    ensures ISum(cooked, adj, p, i + 1) == ISum(cooked, adj, p, i) + JSum(cooked, adj, p, i, adj[i])
  {}

  lemma HitsBelowStep(p: set<bv32>, x3: bv32, s: nat, q: bv32)
    requires s < 3 && q == MissingBit(s) ^ x3
    ensures HitsBelow(p, x3, s + 1) == HitsBelow(p, x3, s) + if PopCount(q) == 10 && q in p then 1 else 0
  {}

  /** `getQuints` (solve.cpp:84-118), with the parallel loop run in order. */
  method GetQuints(cooked: seq<bv32>, adj: seq<seq<nat>>, p: set<bv32>) returns (count: int)
    requires ValidAdj(cooked, adj)
    ensures count == QuintCount(cooked, adj, p)
    ensures IsAdjacency(cooked, adj) ==> count == BruteCount(cooked, p)
  {
    var n := |cooked|;
    count := 0;
    for i := 0 to n
      invariant count == ISum(cooked, adj, p, i)
    {
      ISumSnoc(cooked, adj, p, i);
      var x1 := cooked[i];
      var row := adj[i];
      for t := 0 to |row|
        invariant count == ISum(cooked, adj, p, i) + JSum(cooked, adj, p, i, row[..t])
      {
        var j := row[t];
        JSumSnoc(cooked, adj, p, i, row, t);
        var x2 := Union(x1, cooked[j]);
        var col := adj[j];
        ghost var before := count;
        for u := 0 to |col|
          invariant count == before + KSum(cooked, p, i, j, col[..u])
        {
          var k := col[u];
          KSumSnoc(cooked, p, i, j, col, u);
          if !Disjoint(x2, cooked[k]) {
            continue;
          }
          var x3 := Union(x2, cooked[k]);
          x3 := Complement26(x3);
          ghost var start := count;
          for s := 0 to 3
            invariant count == start + HitsBelow(p, x3, s)
          {
            var q := Single(LetterIndex(Missing[s]));
            q := q ^ x3;
            HitsBelowStep(p, x3, s, q);
            if PopCount(q) == 10 && q in p {
              count := count + 1;
            }
          }
        }
        assert col[..|col|] == col;
      }
      assert row[..|row|] == row;
    }
    if IsAdjacency(cooked, adj) {
      QuintCountBrute(cooked, adj, p);
    }
  }

  // ---------------------------------------------------------------------
  // An independent reference: the same count over all index triples.

  /** Three candidates `i < j < k` whose masks pairwise share no letter. */
  predicate IsTriple(cooked: seq<bv32>, i: nat, j: nat, k: nat)
    requires i < |cooked| && j < |cooked| && k < |cooked|
  {
    && i < j < k
    && Disjoint(cooked[i], cooked[j]) && Disjoint(cooked[i], cooked[k]) && Disjoint(cooked[j], cooked[k])
  }

  /** The number of missing letters `s` for which the tuple `(i, j, k, s)` is counted. */
  function TupleTerm(cooked: seq<bv32>, p: set<bv32>, i: nat, j: nat, k: nat): nat
    requires i < |cooked| && j < |cooked| && k < |cooked|
  {
    if IsTriple(cooked, i, j, k) then Hits(p, Complement26(Union(Union(cooked[i], cooked[j]), cooked[k]))) else 0
  }

  function TupleTerms(cooked: seq<bv32>, p: set<bv32>, i: nat, j: nat): nat -> nat
    requires i < |cooked| && j < |cooked|
  {
    (k: nat) => if k < |cooked| then TupleTerm(cooked, p, i, j, k) else 0
  }

  /** The counted tuples `(i, j, k, s)` for a fixed `i` and `j`. */
  function BruteK(cooked: seq<bv32>, p: set<bv32>, i: nat, j: nat): nat
    requires i < |cooked| && j < |cooked|
  {
    SumBelow(|cooked|, TupleTerms(cooked, p, i, j))
  }

  function BrutePairTerms(cooked: seq<bv32>, p: set<bv32>, i: nat): nat -> nat
    requires i < |cooked|
  {
    (j: nat) => if j < |cooked| then BruteK(cooked, p, i, j) else 0
  }

  /** The counted tuples `(i, j, k, s)` for a fixed `i`. */
  function BruteJ(cooked: seq<bv32>, p: set<bv32>, i: nat): nat
    requires i < |cooked|
  {
    SumBelow(|cooked|, BrutePairTerms(cooked, p, i))
  }

  function BruteRowTerms(cooked: seq<bv32>, p: set<bv32>): nat -> nat {
    (i: nat) => if i < |cooked| then BruteJ(cooked, p, i) else 0
  }

  /** The number of tuples `(i, j, k, s)`: `i < j < k` a compatible triple and
      `s` a missing letter whose test passes. */
  function BruteCount(cooked: seq<bv32>, p: set<bv32>): nat {
    SumBelow(|cooked|, BruteRowTerms(cooked, p))
  }

  /** Along the lists of a compatibility graph, the `x2` test at solve.cpp:96
      is exactly the compatibility of `i` and `k`. */
  lemma TripleTermAgrees(cooked: seq<bv32>, p: set<bv32>, i: nat, j: nat, k: nat)
    requires i < j < k < |cooked|
    requires Disjoint(cooked[i], cooked[j]) && Disjoint(cooked[j], cooked[k])
    ensures TripleTerm(cooked, p, i, j, k) == TupleTerm(cooked, p, i, j, k)
  {
    DisjointUnion(cooked[i], cooked[j], cooked[k]);
  }

  /** Walking the compatibility list of `j` counts the tuples that extend a compatible pair `(i, j)`. */
  lemma KSumBrute(cooked: seq<bv32>, p: set<bv32>, i: nat, j: nat, ks: seq<nat>)
    requires i < j < |cooked| && Disjoint(cooked[i], cooked[j])
    requires IsAdjRow(cooked, j, ks)
    ensures KSum(cooked, p, i, j, ks) == BruteK(cooked, p, i, j)
  {
    var n := |cooked|;
    AdjRowBelowBounds(cooked, j, ks, n);
    forall k: nat | k < n && k in ks ensures TripleTerms(cooked, p, i, j)(k) == TupleTerms(cooked, p, i, j)(k) {
      TripleTermAgrees(cooked, p, i, j, k);
    }
    forall k: nat | k < n && k !in ks ensures TupleTerms(cooked, p, i, j)(k) == 0 {
      assert !IsTriple(cooked, i, j, k);
    }
    SumOverIncreasing(ks, n, TripleTerms(cooked, p, i, j), TupleTerms(cooked, p, i, j));
  }

  /** A pair `(i, j)` that is not compatible with `i < j` completes no tuple. */
  lemma BruteKZero(cooked: seq<bv32>, p: set<bv32>, i: nat, j: nat)
    requires i < |cooked| && j < |cooked|
    requires !(i < j && Disjoint(cooked[i], cooked[j]))
    ensures BruteK(cooked, p, i, j) == 0
  {
    forall k: nat | k < |cooked| ensures TupleTerms(cooked, p, i, j)(k) == 0 {
      assert !IsTriple(cooked, i, j, k);
    }
    SumBelowZero(|cooked|, TupleTerms(cooked, p, i, j));
  }

  /** Walking the compatibility list of `i` counts the tuples that start at `i`. */
  lemma JSumBrute(cooked: seq<bv32>, adj: seq<seq<nat>>, p: set<bv32>, i: nat)
    requires IsAdjacency(cooked, adj) && i < |cooked|
    ensures JSum(cooked, adj, p, i, adj[i]) == BruteJ(cooked, p, i)
  {
    var n := |cooked|;
    assert IsAdjRow(cooked, i, adj[i]);
    AdjRowBelowBounds(cooked, i, adj[i], n);
    forall j: nat | j < n && j in adj[i]
      ensures PairTerms(cooked, adj, p, i)(j) == BrutePairTerms(cooked, p, i)(j)
    {
      assert IsAdjRow(cooked, j, adj[j]);
      KSumBrute(cooked, p, i, j, adj[j]);
    }
    forall j: nat | j < n && j !in adj[i] ensures BrutePairTerms(cooked, p, i)(j) == 0 {
      BruteKZero(cooked, p, i, j);
    }
    SumOverIncreasing(adj[i], n, PairTerms(cooked, adj, p, i), BrutePairTerms(cooked, p, i));
  }

  /** On the lists `adjList` builds, `getQuints` counts exactly the tuples of `BruteCount`. */
  lemma QuintCountBrute(cooked: seq<bv32>, adj: seq<seq<nat>>, p: set<bv32>)
    requires IsAdjacency(cooked, adj)
    ensures QuintCount(cooked, adj, p) == BruteCount(cooked, p)
  {
    forall i: nat | i < |cooked| ensures RowTerms(cooked, adj, p)(i) == BruteRowTerms(cooked, p)(i) {
      JSumBrute(cooked, adj, p, i);
    }
    SumBelowPointwise(|cooked|, RowTerms(cooked, adj, p), BruteRowTerms(cooked, p));
  }

  // ---------------------------------------------------------------------
  // What a counted tuple means.

  /** The letters of the triple `(i, j, k)`: `x3` before it is complemented (solve.cpp:94, 97). */
  function TripleUnion(cooked: seq<bv32>, i: nat, j: nat, k: nat): bv32
    requires i < |cooked| && j < |cooked| && k < |cooked|
  {
    Union(Union(cooked[i], cooked[j]), cooked[k])
  }

  /** A triple the loops reach and do not skip is a compatible triple (solve.cpp:91-97). */
  lemma VisitedTriple(cooked: seq<bv32>, adj: seq<seq<nat>>, i: nat, j: nat, k: nat)
    requires IsAdjacency(cooked, adj) && i < |cooked| && j < |cooked| && k < |cooked|
    requires j in adj[i] && k in adj[j] && Disjoint(Union(cooked[i], cooked[j]), cooked[k])
    ensures IsTriple(cooked, i, j, k)
  {
    assert IsAdjRow(cooked, i, adj[i]) && IsAdjRow(cooked, j, adj[j]);
    DisjointUnion(cooked[i], cooked[j], cooked[k]);
  }

  /** Every compatible triple is reached and not skipped. */
  lemma TripleVisited(cooked: seq<bv32>, adj: seq<seq<nat>>, i: nat, j: nat, k: nat)
    requires IsAdjacency(cooked, adj) && i < |cooked| && j < |cooked| && k < |cooked|
    requires IsTriple(cooked, i, j, k)
    ensures j in adj[i] && k in adj[j] && Disjoint(Union(cooked[i], cooked[j]), cooked[k])
  {
    assert IsAdjRow(cooked, i, adj[i]) && IsAdjRow(cooked, j, adj[j]);
    DisjointUnion(cooked[i], cooked[j], cooked[k]);
  }

  /** A compatible triple of candidates covers 15 letters, ... */
  lemma TripleLetters(cooked: seq<bv32>, i: nat, j: nat, k: nat)
    requires AllCandidates(cooked) && i < |cooked| && j < |cooked| && k < |cooked|
    requires IsTriple(cooked, i, j, k)
    ensures PopCount(TripleUnion(cooked, i, j, k)) == 15
  {
    var a, b, c := cooked[i], cooked[j], cooked[k];
    assert PopCount(a) == 5 && PopCount(b) == 5 && PopCount(c) == 5;
    assert Disjoint(a, b) && Disjoint(a, c) && Disjoint(b, c);
    Union3PopCount(a, b, c);
  }

  lemma Union3PopCount(a: bv32, b: bv32, c: bv32)
    requires PopCount(a) == 5 && PopCount(b) == 5 && PopCount(c) == 5
    requires Disjoint(a, b) && Disjoint(a, c) && Disjoint(b, c)
    ensures PopCount(Union(Union(a, b), c)) == 15
  {
    DisjointUnion(a, b, c);
    DisjointUnionPopCount(a, b);
    DisjointUnionPopCount(Union(a, b), c);
  }

  /** ... all among the 26 letter positions. */
  lemma TripleBelow26(cooked: seq<bv32>, i: nat, j: nat, k: nat)
    requires AllCandidates(cooked) && i < |cooked| && j < |cooked| && k < |cooked|
    ensures TripleUnion(cooked, i, j, k) < 0x400_0000
  {
    OrBelow26(cooked[i], cooked[j]);
    OrBelow26(Union(cooked[i], cooked[j]), cooked[k]);
  }

  /** The popcount test at solve.cpp:102 passes when the triple does not use
      the letter tried (at position `b`), ... */
  lemma MissingLetterAbsent(cooked: seq<bv32>, i: nat, j: nat, k: nat, b: BitIndex)
    requires AllCandidates(cooked) && i < |cooked| && j < |cooked| && k < |cooked| && b < 26
    requires IsTriple(cooked, i, j, k)
    ensures !Bit(TripleUnion(cooked, i, j, k), b) ==> PopCount(Single(b) ^ Complement26(TripleUnion(cooked, i, j, k))) == 10
  {
    TripleLetters(cooked, i, j, k);
    TripleBelow26(cooked, i, j, k);
    FlipComplementTest(TripleUnion(cooked, i, j, k), b);
  }

  /** ... and fails when it does. */
  lemma MissingLetterPresent(cooked: seq<bv32>, i: nat, j: nat, k: nat, b: BitIndex)
    requires AllCandidates(cooked) && i < |cooked| && j < |cooked| && k < |cooked| && b < 26
    requires IsTriple(cooked, i, j, k)
    ensures PopCount(Single(b) ^ Complement26(TripleUnion(cooked, i, j, k))) == 10 ==> !Bit(TripleUnion(cooked, i, j, k), b)
  {
    TripleLetters(cooked, i, j, k);
    TripleBelow26(cooked, i, j, k);
    FlipComplementTest(TripleUnion(cooked, i, j, k), b);
  }

  /** A counted tuple completes to five words: when the test passes for the
      letter at `b`, a compatible pair `l < m` shares no letter with the triple,
      and the five cover every letter except `b`. */
  lemma QuintupleOfHit(cooked: seq<bv32>, p: set<bv32>, i: nat, j: nat, k: nat, b: BitIndex)
    requires AllCandidates(cooked) && p == PairUnions(cooked)
    requires i < |cooked| && j < |cooked| && k < |cooked| && b < 26
    requires IsTriple(cooked, i, j, k) && HitAt(p, Complement26(TripleUnion(cooked, i, j, k)), b)
    ensures exists l, m :: 0 <= l < m < |cooked| && Disjoint(cooked[l], cooked[m])
              && Disjoint(TripleUnion(cooked, i, j, k), Union(cooked[l], cooked[m]))
              && Union(TripleUnion(cooked, i, j, k), Union(cooked[l], cooked[m])) == Low26 ^ Single(b)
  {
    var x := TripleUnion(cooked, i, j, k);
    HitInPairs(p, x, b);
    PairUnionsWitness(cooked, Single(b) ^ Complement26(x));
    HitLacksLetter(cooked, p, i, j, k, b);
    TripleBelow26(cooked, i, j, k);
    PairCompletes(cooked, x, b);
  }

  lemma HitInPairs(p: set<bv32>, x: bv32, b: BitIndex)
    requires HitAt(p, Complement26(x), b)
    ensures Single(b) ^ Complement26(x) in p
  {}

  /** A triple for which the test passes lacks the letter at `b`. */
  lemma HitLacksLetter(cooked: seq<bv32>, p: set<bv32>, i: nat, j: nat, k: nat, b: BitIndex)
    requires AllCandidates(cooked)
    requires i < |cooked| && j < |cooked| && k < |cooked| && b < 26
    requires IsTriple(cooked, i, j, k) && HitAt(p, Complement26(TripleUnion(cooked, i, j, k)), b)
    ensures !Bit(TripleUnion(cooked, i, j, k), b)
  {
    MissingLetterPresent(cooked, i, j, k, b);
  }

  /** A compatible pair whose union is the flipped complement of `x` completes `x`. */
  lemma PairCompletes(cooked: seq<bv32>, x: bv32, b: BitIndex)
    requires x < 0x400_0000 && b < 26 && !Bit(x, b)
    requires exists l, m :: 0 <= l < m < |cooked| && DisjointFn(cooked[l], cooked[m])
               && Single(b) ^ Complement26(x) == UnionFn(cooked[l], cooked[m])
    ensures exists l, m :: 0 <= l < m < |cooked| && Disjoint(cooked[l], cooked[m])
              && Disjoint(x, Union(cooked[l], cooked[m]))
              && Union(x, Union(cooked[l], cooked[m])) == Low26 ^ Single(b)
  {
    var l, m :| 0 <= l < m < |cooked| && DisjointFn(cooked[l], cooked[m])
      && Single(b) ^ Complement26(x) == UnionFn(cooked[l], cooked[m]);
    var q := Single(b) ^ Complement26(x);
    DisjointFnSound(cooked[l], cooked[m]);
    UnionFnIsUnion(cooked[l], cooked[m]);
    FlipCoverDisjoint(x, b, q);
    FlipCoverUnion(x, b, q);
  }

  lemma FlipCoverDisjoint(x: bv32, b: BitIndex, q: bv32)
    requires !Bit(x, b) && q == Single(b) ^ Complement26(x)
    ensures Disjoint(x, q)
  {
    ComplementFlipDisjoint(x, b);
  }

  lemma FlipCoverUnion(x: bv32, b: BitIndex, q: bv32)
    requires x < 0x400_0000 && b < 26 && !Bit(x, b) && q == Single(b) ^ Complement26(x)
    ensures Union(x, q) == Low26 ^ Single(b)
  {
    ComplementFlipCover(x, b);
  }

  /** Conversely, a compatible triple that five words complete in this way is
      counted for the letter at `b`. */
  lemma HitOfQuintuple(cooked: seq<bv32>, p: set<bv32>, i: nat, j: nat, k: nat, l: nat, m: nat, b: BitIndex)
    requires AllCandidates(cooked) && p == PairUnions(cooked)
    requires i < |cooked| && j < |cooked| && k < |cooked| && l < m < |cooked| && b < 26
    requires IsTriple(cooked, i, j, k) && Disjoint(cooked[l], cooked[m])
    requires Disjoint(TripleUnion(cooked, i, j, k), Union(cooked[l], cooked[m]))
    requires Union(TripleUnion(cooked, i, j, k), Union(cooked[l], cooked[m])) == Low26 ^ Single(b)
    ensures HitAt(p, Complement26(TripleUnion(cooked, i, j, k)), b)
  {
    var w := Union(cooked[l], cooked[m]);
    CoverFlip(TripleUnion(cooked, i, j, k), w, b);
    UnionPopCount(cooked[l], cooked[m]);
    DisjointFnComplete(cooked[l], cooked[m]);
    UnionFnIsUnion(cooked[l], cooked[m]);
    PairJoinsMember(cooked, DisjointFn, UnionFn, l, m);
  }

  lemma CoverFlip(x: bv32, w: bv32, b: BitIndex)
    requires Disjoint(x, w) && Union(x, w) == Low26 ^ Single(b) && b < 26
    ensures Single(b) ^ Complement26(x) == w
  {
    ComplementFlipOfCover(x, w, b);
  }

  // ---------------------------------------------------------------------
  // The result vector and its merge.

  /** Five positions in the candidate list (solve.cpp:60-62). */
  datatype Quint = Quint(i: int, j: int, k: int, l: int, m: int)

  /** A `vector<quint>` that `add` extends in place. */
  class QuintVector {
    var items: seq<Quint>

    constructor (items0: seq<Quint>)
      ensures items == items0
    {
      items := items0;
    }
  }

  /** `add` (solve.cpp:64-69): appends the elements of `b` to `a`, in order,
      and returns a copy of the extended `a`. */
  method Add(a: QuintVector, b: seq<Quint>) returns (r: seq<Quint>)
    modifies a
    ensures a.items == old(a.items) + b
    ensures r == a.items
  {
    for t := 0 to |b|
      invariant a.items == old(a.items) + b[..t]
    {
      a.items := a.items + [b[t]];
    }
    assert b[..|b|] == b;
    r := a.items;
  }
}

