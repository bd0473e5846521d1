# Five words, twenty-five letters: a verified model of `solve.cpp`

`solve.cpp` looks for sets of five words with 25 distinct letters between them. Each word
becomes a 26-bit letter mask (`cook`). The distinct masks with exactly five letters are kept in
order of first appearance (`cookVector`). For every candidate the program lists the later
candidates that share no letter with it (`adjList`), and it collects the letter sets of all
compatible pairs (`pairs`).

`getQuints` then walks every compatible triple `i < j < k` along those lists. For each of three
letters, 'j', 'q' and 'x', it treats that letter as the one left unused and works out the
ten letters the two remaining words would need. It counts one hit when that ten-letter set is
the letter set of some compatible pair.

The Dafny project has five modules:

- `Bits`: 32-bit masks (`bv32`), bit positions, `std::popcount`, and the facts about
  complements and single-bit flips that the search relies on.
- `Seqs`: generic facts about sequences:
  - lists of first occurrences;
  - strictly increasing index lists;
  - sets of pair joins;
  - sums of a weight over an index list or an index range.
- `Cook`: `cook` and `cookVector`.
- `Graph`: `adjList` and `pairs`.
- `Quints`: `getQuints`, the `quint` record and `add`.

Each loop of the source is a `method` with a loop. It is proved against a specification
function, and the lemmas beside that function state what the source promises:

- `AdjList` builds the one and only compatibility structure (`IsAdjacency`, `AdjacencyUnique`).
- `Pairs` returns exactly the set of unions of compatible pairs.
- `GetQuints` returns the sum its loops accumulate. On the lists `adjList` builds, that sum equals
  an independent count over all index triples (`BruteCount`).
- `QuintupleOfHit` and `HitOfQuintuple` state what one hit means: a hit for a triple and a
  letter means exactly this. Some compatible pair shares no letter with the triple, and the five
  words cover every letter except that one.

The parallel loops are modelled as ordinary loops run in index order. The words are parameters;
nothing is read from files.

## Model

| member | source | states |
|---|---|---|
| Bits.PopCount | solve.cpp:36 | `std::popcount` on a `uint32_t` (also at line 102): the number of set bits among the 32 positions. Its meaning is stated by `PopCountDisjointUnion`, `PopCountComplement26` and `PopCountFlip`. |
| Bits.Single | solve.cpp:100 | `1 << k` for a bit position `k < 32` (also at line 26). |
| Bits.Complement26 | solve.cpp:98 | `(~x) & 0b11…1` with 26 ones: the letters that `x` does not use. |
| Cook.LetterIndex | solve.cpp:26 | `c - 'a'` for a lowercase letter (also at line 100): its bit position, 0 through 25. |
| Cook.Fingerprint | solve.cpp:23-29 | The value `cook` returns: the masks `1 << (c - 'a')` of the letters, or-ed together in word order. |
| Cook.IsCandidate | solve.cpp:36 | The filter of `cookVector`: `std::popcount(x) == 5`. |
| Bits.PopCountComplement26 | solve.cpp:98 | For a mask within the 26 letter bits, `~x & 0b1…1` has exactly `26 - popcount(x)` bits. |
| Bits.PopCountFlip | solve.cpp:100-101 | `(1 << k) ^ x` has one bit fewer than `x` when bit `k` is set, and one more when it is clear. |
| Bits.FlipComplementTest | solve.cpp:98-102 | For a 15-letter mask `x`, flipping letter `k` in its complement leaves exactly 10 letters if and only if `x` lacks `k`. |
| Bits.PopCountDisjointUnion | solve.cpp:76-77 | The popcount of the union of two masks that share no bit is the sum of their popcounts. |
| Cook.Cook | solve.cpp:23-29 | The result is the word's fingerprint. Bit `b` is set exactly when some letter of the word is the `b`-th letter. The mask is below 2^26, and its popcount is at most the word's length. |
| Cook.FingerprintLetters | solve.cpp:25-27 | Bit `b` of a word's mask is set if and only if position `b` belongs to the word's letter positions. |
| Cook.FingerprintBelow26 | solve.cpp:26 | A lowercase word sets no bit from 26 up. |
| Cook.FingerprintPopCount | solve.cpp:25-27 | A mask has at most as many bits as the word has letters. |
| Cook.Fingerprints | solve.cpp:34-35 | One mask per word, in list order: element `t` is the mask of word `t`. |
| Cook.CookVector | solve.cpp:31-44 | The result lists each distinct five-bit mask of the words once, in order of first appearance, and nothing else. Every element has five letters within the 26 positions. |
| Cook.CookVectorCandidates | solve.cpp:36 | Every mask the first-occurrence list keeps has popcount 5 and lies below 2^26. |
| Seqs.FirstOccurrencesSnoc | solve.cpp:34-41 | One loop round of `cookVector` keeps the first-occurrence invariant, appending a mask exactly when it is kept and new. |
| Seqs.FirstOccurrencesUnique | solve.cpp:31-44 | Two lists that both satisfy the first-occurrence property of the same input are equal, so the result of `cookVector` is determined. |
| Graph.AdjRowStep | solve.cpp:51-55 | One round of the inner loop of `adjList` keeps the row exactly equal to the increasing list of later compatible indices seen so far. |
| Graph.AdjList | solve.cpp:46-58 | Row `i` lists, in increasing order, exactly the indices `j > i` whose masks share no letter with that of `i`. |
| Graph.AdjacencyUnique | solve.cpp:46-58 | Any two results satisfying that property are equal. |
| Seqs.StrictlyIncreasingUnique | solve.cpp:51-55 | Two strictly increasing lists with the same elements are the same list. |
| Graph.DisjointUnion | solve.cpp:94-96 | A mask shares no letter with `x | y` if and only if it shares none with `x` and none with `y` (two implications). |
| Seqs.PairJoinsStep | solve.cpp:75-79 | Visiting the pair `(i, j)` adds its union exactly when the two masks are compatible. |
| Graph.Pairs | solve.cpp:71-82 | The result is exactly the set of `cooked[i] \| cooked[j]` over the compatible pairs `i < j`. |
| Graph.PairUnionsPopCount | solve.cpp:76-77 | When every candidate has five letters, every element of the pair set has ten. |
| Graph.PairUnionsWitness | solve.cpp:71-82 | Every element of the pair set is the union of some compatible pair `i < j`. |
| Seqs.SumOverIncreasing | solve.cpp:93-95 | Summing a weight along a strictly increasing index list equals summing, over the whole index range, a weight that agrees on the list and is zero off it. |
| Quints.MissingBit | solve.cpp:100 | `1 << (missing[s] - 'a')` for the `s`-th of the letters 'j', 'q', 'x' of line 89. |
| Quints.HitAt | solve.cpp:100-102 | The test at line 102 for the letter at position `b`: `q = (1 << b) ^ x3` has ten bits and is in `p`. |
| Quints.Hit | solve.cpp:99-102 | The same test for the `s`-th missing letter, defined as `HitAt` at that letter's position. |
| Quints.TripleTerm | solve.cpp:96-102 | What one `k` contributes to `count`: 0 when `(x2 & cooked[k]) != 0` (the `continue`), otherwise the number of missing letters passing the test for `x3 = ~(x2 | cooked[k]) & Low26`. |
| Quints.QuintCount | solve.cpp:90-117 | The value `getQuints` returns: the sum of `TripleTerm` over `i` in index order, `j` along `adj[i]` and `k` along `adj[j]`. |
| Quints.HitsBelowStep | solve.cpp:99-102 | One round of the `s` loop adds one exactly when `popcount(q) == 10` and `q` is in the pair set. |
| Quints.GetQuints | solve.cpp:84-118 | The count is the sum the loops accumulate. When `adj` is what `adjList` builds, it also equals `BruteCount`: the number of tuples `(i, j, k, s)` where `i < j < k` is a pairwise compatible triple and the `s`-th missing letter passes the test. |
| Quints.AdjacencyValid | solve.cpp:46-58 | The lists `adjList` builds hold only indices of the candidate list, which is what `getQuints` needs. |
| Quints.TripleTermAgrees | solve.cpp:94-96 | Along the lists, the single test `(x2 & cooked[k]) != 0` decides exactly whether `k` is compatible with `i`, and hence whether `(i, j, k)` is a compatible triple. |
| Quints.KSumBrute | solve.cpp:95-102 | The `k` loop over the list of `j` counts exactly the tuples that extend the compatible pair `(i, j)`. |
| Quints.BruteKZero | solve.cpp:93 | A pair `(i, j)` that is not compatible with `i < j` completes no tuple. |
| Quints.JSumBrute | solve.cpp:93-102 | The `j` loop over the list of `i` counts exactly the tuples that start at `i`. |
| Quints.QuintCountBrute | solve.cpp:90-117 | On the lists `adjList` builds, the count `getQuints` returns equals the count over all index triples. |
| Quints.VisitedTriple | solve.cpp:91-97 | A triple the loops reach and do not skip satisfies `i < j < k`, and its masks are pairwise disjoint. |
| Quints.TripleVisited | solve.cpp:91-97 | Every such triple is reached: `j` is in the list of `i`, `k` is in the list of `j`, and the test at line 96 does not skip it. |
| Quints.TripleLetters | solve.cpp:94-97 | The union of a compatible triple of five-letter masks has 15 letters. |
| Quints.TripleBelow26 | solve.cpp:97-98 | That union lies within the 26 letter positions. |
| Quints.MissingLetterAbsent | solve.cpp:98-102 | If the triple does not use the letter tried, `popcount(q) == 10`. |
| Quints.MissingLetterPresent | solve.cpp:98-102 | If `popcount(q) == 10`, the triple does not use the letter tried. |
| Quints.QuintupleOfHit | solve.cpp:99-102 | Take a hit for a compatible triple and a letter, checked against the set that `pairs` builds. Then there is a compatible pair `l < m` whose union shares no letter with the triple, and the five masks together cover every letter but the one tried. |
| Quints.HitOfQuintuple | solve.cpp:99-102 | Conversely, every such pair makes the test pass for that triple and that letter. |
| Quints.Quint | solve.cpp:60-62 | The record `quint`: five `int` indices `i`, `j`, `k`, `l`, `m`. |
| Quints.QuintVector.constructor | solve.cpp:87 | A `vector<quint>` whose contents `items` start as the given sequence. |
| Quints.Add | solve.cpp:64-69 | `a` becomes its old contents followed by the elements of `b`, in order. The returned vector equals the new `a`. |

## Left out

- `readWords` (solve.cpp:14-21) reads files. The model takes the word list as a parameter.
- `main` (solve.cpp:120-137) is left out:
  - It sorts and reverses the candidate list. No property proved here depends on the order of
    the candidates, so the model takes the list in any order.
  - Its timing and printing are output only.
- The OpenMP pragmas (solve.cpp:49, 85, 90) are left out:
  - The parallel loops are modelled as sequential loops in index order.
  - `reduction(+: count)` adds up the same terms in another order.
  - The `merge` reduction declared at solve.cpp:85 is used by no clause.
- The vector `result` (solve.cpp:87) is never filled: the only code that would push into it is
  the commented-out five-level search (solve.cpp:104-113). Neither affects the returned count,
  so they are not modelled. `Quint` and `Add` model the record and the merge on their own.
- GetQuints: `count` is unbounded. The source's `int` could overflow past 2^31 - 1 hits, and the
  model does not capture that.
- Cook: lowercase words are a precondition. For any other character the source shifts by a
  negative amount or by 32 or more, which C++ leaves undefined.
- Cook: the shift `1 << (c - 'a')` is an `int` shift in the source. For letters it gives the
  same 26 bits as the 32-bit shift modelled here.
- Add: `b` is taken as a value. The call `add(a, a)` aliases its arguments: the source then
  pushes into the vector it is iterating over, and the model does not capture that.
- Containers are modelled as values: `unordered_set<uint32_t>` as `set<bv32>`, `vector<int>`
  and `vector<vector<int>>` as sequences of `nat`. Their hashing and capacity are left out.
