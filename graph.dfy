/** The compatibility structure over the candidate masks: for each candidate
    the later candidates it shares no letter with (`adjList`, solve.cpp:46-58),
    and the set of letter sets of all compatible pairs (`pairs`, solve.cpp:71-82). */
module Graph {
  import opened Bits
  import opened Seqs

  /** Two masks are compatible when they share no letter. */
  predicate Disjoint(x: bv32, y: bv32) {
    x & y == 0
  }

  /** `row` lists, in increasing order, every index `j'` with `i < j' < j`
      whose mask is compatible with that of `i`. */
  ghost predicate IsAdjRowBelow(cooked: seq<bv32>, i: nat, row: seq<nat>, j: nat)
    requires i < |cooked| && j <= |cooked|
  {
    && StrictlyIncreasing(row)
    && forall j': nat :: j' in row <==> i < j' < j && Disjoint(cooked[i], cooked[j'])
  }

  /** `row` lists, in increasing order, every later index compatible with `i`. */
  ghost predicate IsAdjRow(cooked: seq<bv32>, i: nat, row: seq<nat>)
    requires i < |cooked|
  {
    IsAdjRowBelow(cooked, i, row, |cooked|)
  }

  /** `adj` is the compatibility list of every candidate. */
  ghost predicate IsAdjacency(cooked: seq<bv32>, adj: seq<seq<nat>>) {
    && |adj| == |cooked|
    && forall i :: 0 <= i < |cooked| ==> IsAdjRow(cooked, i, adj[i])
  }

  /** One step of the inner loop of `adjList` keeps `IsAdjRowBelow`. */
  lemma AdjRowStep(cooked: seq<bv32>, i: nat, row: seq<nat>, j: nat)
    requires i < j < |cooked| && IsAdjRowBelow(cooked, i, row, j)
    ensures IsAdjRowBelow(cooked, i, if Disjoint(cooked[i], cooked[j]) then row + [j] else row, j + 1)
  {
    forall t | 0 <= t < |row| ensures row[t] < j {
      assert row[t] in row;
    }
  }

  /** Every entry of a partial row lies between `i` and `j`. */
  lemma AdjRowBelowBounds(cooked: seq<bv32>, i: nat, row: seq<nat>, j: nat)
    requires i < |cooked| && j <= |cooked| && IsAdjRowBelow(cooked, i, row, j)
    ensures forall t :: 0 <= t < |row| ==> i < row[t] < j
    ensures row != [] ==> i < row[0] < j
  {
    forall t | 0 <= t < |row| ensures i < row[t] < j {
      assert row[t] in row;
    }
  }

  /** `adjList` (solve.cpp:46-58). */
  method AdjList(cooked: seq<bv32>) returns (adj: seq<seq<nat>>)
    ensures IsAdjacency(cooked, adj)
  {
    var n := |cooked|;
    var rows := new seq<nat>[n](_ => []);
    for i := 0 to n
      invariant forall i' :: 0 <= i' < i ==> IsAdjRow(cooked, i', rows[i'])
      invariant forall i' :: i <= i' < n ==> rows[i'] == []
    {
      for j := i + 1 to n
        invariant forall i' :: 0 <= i' < i ==> IsAdjRow(cooked, i', rows[i'])
        invariant forall i' :: i < i' < n ==> rows[i'] == []
        invariant IsAdjRowBelow(cooked, i, rows[i], j)
      {
        AdjRowStep(cooked, i, rows[i], j);
        if cooked[i] & cooked[j] == 0 {
          rows[i] := rows[i] + [j];
        }
      }
    }
    adj := rows[..];
  }

  /** Any two compatibility lists of the same candidates are equal: `IsAdjacency`
      leaves no freedom in what `adjList` returns. */
  lemma AdjacencyUnique(cooked: seq<bv32>, adj1: seq<seq<nat>>, adj2: seq<seq<nat>>)
    requires IsAdjacency(cooked, adj1) && IsAdjacency(cooked, adj2)
    ensures adj1 == adj2
  {
    forall i | 0 <= i < |cooked| ensures adj1[i] == adj2[i] {
      StrictlyIncreasingUnique(adj1[i], adj2[i]);
    }
  }

  /** The letter set of two masks. */
  function Union(x: bv32, y: bv32): bv32 {
    x | y
  }

  /** A mask is compatible with a union exactly when it is compatible with both parts. */
  lemma DisjointUnion(x: bv32, y: bv32, z: bv32)
    ensures Disjoint(Union(x, y), z) ==> Disjoint(x, z) && Disjoint(y, z)
    ensures Disjoint(x, z) && Disjoint(y, z) ==> Disjoint(Union(x, y), z)
  {
    UnionAndZero(x, y, z);
  }

  lemma UnionAndZero(x: bv32, y: bv32, z: bv32)
    ensures ((x | y) & z == 0) == (x & z == 0 && y & z == 0)
  {
    AndOverOr(x, y, z);
    OrZero(x & z, y & z);
  }

  /** `Disjoint` and `Union` as values, for the generic pair sets of `Seqs`.
      (Written out rather than as `Disjoint` and `Union` themselves: passing a
      named function as a value gives the verifier facts about it that make
      every later proof about it slower.) */
  const DisjointFn: (bv32, bv32) -> bool := (x: bv32, y: bv32) => x & y == 0
  const UnionFn: (bv32, bv32) -> bv32 := (x: bv32, y: bv32) => x | y

  lemma DisjointFnSound(x: bv32, y: bv32)
    ensures DisjointFn(x, y) ==> Disjoint(x, y)
  {}

  lemma DisjointFnComplete(x: bv32, y: bv32)
    ensures Disjoint(x, y) ==> DisjointFn(x, y)
  {}

  lemma UnionFnIsUnion(x: bv32, y: bv32)
    ensures UnionFn(x, y) == Union(x, y)
  {}

  /** The letter sets of the compatible pairs `i < j` among the candidates. */
  ghost function PairUnions(cooked: seq<bv32>): set<bv32> {
    PairJoins(cooked, DisjointFn, UnionFn)
  }

  /** Every pair union comes from a compatible pair. */
  lemma PairUnionsWitness(cooked: seq<bv32>, u: bv32)
    requires u in PairUnions(cooked)
    ensures exists i, j :: 0 <= i < j < |cooked| && DisjointFn(cooked[i], cooked[j]) && u == UnionFn(cooked[i], cooked[j])
  {
    PairJoinsWitness(cooked, DisjointFn, UnionFn, u);
  }

  /** `pairs` (solve.cpp:71-82). */
  method Pairs(cooked: seq<bv32>) returns (p: set<bv32>)
    ensures p == PairUnions(cooked)
  {
    var n := |cooked|;
    PairJoinsEnds(cooked, DisjointFn, UnionFn);
    p := {};
    for i := 0 to n
      invariant p == PairJoinsBefore(cooked, DisjointFn, UnionFn, i, 0)
    {
      PairJoinsRowDone(cooked, DisjointFn, UnionFn, i);
      for j := i + 1 to n
        invariant p == PairJoinsBefore(cooked, DisjointFn, UnionFn, i, j)
      {
        PairJoinsStep(cooked, DisjointFn, UnionFn, i, j);
        DisjointFnSound(cooked[i], cooked[j]);
        DisjointFnComplete(cooked[i], cooked[j]);
        UnionFnIsUnion(cooked[i], cooked[j]);
        if Disjoint(cooked[i], cooked[j]) {
          p := p + {Union(cooked[i], cooked[j])};
        }
      }
    }
  }

  /** `PopCountDisjointUnion` stated through `Disjoint` and `Union`. Callers
      whose facts are phrased with these predicates need this form: handing
      the verifier the raw `&` and `|` alongside several counts makes their
      proofs run out of resource. */
  lemma DisjointUnionPopCount(x: bv32, y: bv32)
    requires Disjoint(x, y)
    ensures PopCount(Union(x, y)) == PopCount(x) + PopCount(y)
  {
    PopCountDisjointUnion(x, y);
  }

  /** Two compatible five-letter masks cover ten letters together. */
  lemma UnionPopCount(x: bv32, y: bv32)
    requires PopCount(x) == 5 && PopCount(y) == 5 && Disjoint(x, y)
    ensures PopCount(Union(x, y)) == 10
  {
    PopCountDisjointUnion(x, y);
  }

  /** When every candidate has five letters, every compatible pair covers ten. */
  lemma PairUnionsPopCount(cooked: seq<bv32>)
    requires forall t :: 0 <= t < |cooked| ==> PopCount(cooked[t]) == 5
    ensures forall u :: u in PairUnions(cooked) ==> PopCount(u) == 10
  {
    forall u | u in PairUnions(cooked) ensures PopCount(u) == 10 {
      var i, j :| 0 <= i < j < |cooked| && DisjointFn(cooked[i], cooked[j]) && u == UnionFn(cooked[i], cooked[j]);
      UnionPopCount(cooked[i], cooked[j]);
    }
  }
}
