/** Turning words into letter masks (`cook`) and collecting the distinct
    five-letter masks of a word list (`cookVector`), solve.cpp:23-44. */
module Cook {
  import opened Bits
  import opened Seqs

  predicate IsLowercase(word: string) {
    forall t :: 0 <= t < |word| ==> 'a' <= word[t] <= 'z'
  }

  predicate AllLowercase(words: seq<string>) {
    forall t :: 0 <= t < |words| ==> IsLowercase(words[t])
  }

  /** A bit position that a letter can occupy. */
  type LetterPos = b: bv32 | b < 26

  /** Position `t` holds `t`: the table behind `c - 'a'`. It stands for
      `(c as int - 'a' as int) as bv32`; the conversion from `int` to `bv32`
      written out makes the verifier's proofs about `cookVector` and
      `getQuints` far slower, while a lookup in this table keeps every fact
      about a position inside bit-vector arithmetic. */
  const Positions: seq<LetterPos> :=
    [0, 1, 2, 3, 4, 5, 6, 7, 8, 9, 10, 11, 12, 13, 14, 15, 16, 17, 18, 19, 20, 21, 22, 23, 24, 25]

  /** `c - 'a'`: the bit position of a lowercase letter. */
  function LetterIndex(c: char): LetterPos
    requires 'a' <= c <= 'z'
  {
    Positions[c as int - 'a' as int]
  }

  /** The bit positions of the letters a word uses. */
  function Letters(word: string): set<LetterPos>
    requires IsLowercase(word)
  {
    set t | 0 <= t < |word| :: LetterIndex(word[t])
  }

  /** The mask of a word: the union of `1 << (c - 'a')` over its letters,
      taken in the order `cook` takes them. */
  function Fingerprint(word: string): bv32
    requires IsLowercase(word)
  {
    if word == [] then 0
    else Fingerprint(word[..|word| - 1]) | Single(LetterIndex(word[|word| - 1]))
  }

  lemma LettersSnoc(word: string)
    requires IsLowercase(word) && word != []
    ensures Letters(word) == Letters(word[..|word| - 1]) + {LetterIndex(word[|word| - 1])}
  {
    var init := word[..|word| - 1];
    forall t | 0 <= t < |init| ensures init[t] == word[t] {}
  }

  lemma FingerprintBitSnoc(word: string, b: BitIndex)
    requires IsLowercase(word) && word != []
    ensures Bit(Fingerprint(word), b) ==
            (Bit(Fingerprint(word[..|word| - 1]), b) || b == LetterIndex(word[|word| - 1]))
  {
    var k := LetterIndex(word[|word| - 1]);
    var x := Fingerprint(word[..|word| - 1]);
    OrBit(x, Single(k), b);
    SingleBit(k, b);
  }

  /** Bit `b` of a word's mask is set exactly when some letter of the word sits at `b`. */
  lemma {:induction false} FingerprintLetters(word: string, b: BitIndex)
    requires IsLowercase(word)
    ensures Bit(Fingerprint(word), b) <==> b in Letters(word)
  {
    if word != [] {
      FingerprintLetters(word[..|word| - 1], b);
      FingerprintBitSnoc(word, b);
      LettersSnoc(word);
    }
  }

  /** A word's mask uses only the 26 letter positions. */
  lemma {:induction false} FingerprintBelow26(word: string)
    requires IsLowercase(word)
    ensures Fingerprint(word) < 0x400_0000
  {
    if word != [] {
      FingerprintBelow26(word[..|word| - 1]);
    }
  }

  /** A word has at least as many letters as its mask has bits. */
  lemma {:induction false} FingerprintPopCount(word: string)
    requires IsLowercase(word)
    ensures PopCount(Fingerprint(word)) <= |word|
  {
    if word != [] {
      FingerprintPopCount(word[..|word| - 1]);
      FingerprintPopCountSnoc(word);
    } else {
      PopCountZero(Fingerprint(word));
    }
  }

  /** One more letter adds at most one bit. */
  lemma FingerprintPopCountSnoc(word: string)
    requires IsLowercase(word) && word != []
    ensures PopCount(Fingerprint(word)) <= PopCount(Fingerprint(word[..|word| - 1])) + 1
  {
    PopCountOrSingle(Fingerprint(word[..|word| - 1]), LetterIndex(word[|word| - 1]));
  }

  lemma FingerprintSnoc(word: string, t: nat)
    requires IsLowercase(word) && t < |word|
    ensures Fingerprint(word[..t + 1]) == Fingerprint(word[..t]) | Single(LetterIndex(word[t]))
  {
    assert word[..t + 1][..t] == word[..t];
  }

  /** `cook` (solve.cpp:23-29). */
  method Cook(word: string) returns (x: bv32)
    requires IsLowercase(word)
    ensures x == Fingerprint(word)
    ensures forall b: BitIndex :: Bit(x, b) <==> b in Letters(word)
    ensures x < 0x400_0000
    ensures PopCount(x) <= |word|
  {
    x := 0;
    for t := 0 to |word|
      invariant x == Fingerprint(word[..t])
    {
      FingerprintSnoc(word, t);
      x := x | Single(LetterIndex(word[t]));
    }
    assert word[..|word|] == word;
    forall b: BitIndex ensures Bit(x, b) <==> b in Letters(word) {
      FingerprintLetters(word, b);
    }
    FingerprintBelow26(word);
    FingerprintPopCount(word);
  }

  /** The mask of every word, in list order. */
  function Fingerprints(words: seq<string>): (fs: seq<bv32>)
    requires AllLowercase(words)
    ensures |fs| == |words|
    ensures forall t :: 0 <= t < |words| ==> fs[t] == Fingerprint(words[t])
  {
    if words == [] then []
    else Fingerprints(words[..|words| - 1]) + [Fingerprint(words[|words| - 1])]
  }

  /** What `cookVector` keeps: masks with exactly five bits (solve.cpp:36). */
  predicate IsCandidate(x: bv32) {
    PopCount(x) == 5
  }

  /** `cookVector` (solve.cpp:31-44): the masks of the words that have exactly
      five bits, each distinct mask once, in the order of first appearance. */
  method CookVector(words: seq<string>) returns (cooked: seq<bv32>)
    requires AllLowercase(words)
    ensures FirstOccurrences(Fingerprints(words), cooked, IsCandidate)
    ensures AllCandidates(cooked)
  {
    ghost var fs := Fingerprints(words);
    cooked := [];
    var uniq: set<bv32> := {};
    for t := 0 to |words|
      invariant forall x :: x in uniq <==> x in cooked
      invariant FirstOccurrences(fs[..t], cooked, IsCandidate)
    {
      var x := Cook(words[t]);
      assert fs[..t + 1] == fs[..t] + [x];
      FirstOccurrencesSnoc(fs[..t], x, cooked, IsCandidate);
      if PopCount(x) == 5 {
        if x !in uniq {
          cooked := cooked + [x];
          uniq := uniq + {x};
        }
      }
    }
    assert fs[..|words|] == fs;
    CookVectorCandidates(words, cooked);
  }

  /** Every mask has five letters, all among the 26 letter positions: what
      `cookVector` returns and what the search relies on. */
  predicate AllCandidates(cooked: seq<bv32>) {
    forall t :: 0 <= t < |cooked| ==> IsCandidate(cooked[t]) && cooked[t] < 0x400_0000
  }

  /** The masks `cookVector` keeps are candidates. */
  lemma CookVectorCandidates(words: seq<string>, cooked: seq<bv32>)
    requires AllLowercase(words)
    requires FirstOccurrences(Fingerprints(words), cooked, IsCandidate)
    ensures AllCandidates(cooked)
  {
    var fs := Fingerprints(words);
    forall t | 0 <= t < |cooked| ensures IsCandidate(cooked[t]) && cooked[t] < 0x400_0000 {
      assert cooked[t] in cooked;
      var w :| 0 <= w < |fs| && fs[w] == cooked[t];
      FingerprintBelow26(words[w]);
    }
  }
}

