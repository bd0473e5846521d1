/** 32-bit letter masks (`uint32_t` in the source) and the population count
    `std::popcount` that the search applies to them.

    A bit position is itself a 32-bit value below 32, so that every fact about
    one bit of a mask stays inside the solver's bit-vector theory. Population
    counts are then reasoned about one position at a time: `CountAdd` turns a
    pointwise relation between the bits of three masks into a relation between
    their counts. */
module Bits {

  /** A bit position of a 32-bit mask. */
  type BitIndex = b: bv32 | b < 32

  /** A number of low bit positions, 0 through 32. */
  type Width = n: bv32 | n <= 32

  /** The 26 bits that letters 'a'..'z' occupy (the constant at solve.cpp:98). */
  const Low26: bv32 := 0x3FF_FFFF

  predicate Bit(x: bv32, b: BitIndex) {
    (x >> b) & 1 == 1
  }

  /** 1 when bit `b` of `x` is set, else 0. */
  function Ind(x: bv32, b: BitIndex): nat {
    if Bit(x, b) then 1 else 0
  }

  /** The number of set bits of `x` among positions 0 .. n-1. */
  function CountBelow(x: bv32, n: Width): nat
    decreases n
  {
    if n == 0 then 0 else CountBelow(x, n - 1) + Ind(x, n - 1)
  }

  /** `std::popcount` on a 32-bit value. */
  function PopCount(x: bv32): nat {
    CountBelow(x, 32)
  }

  /** `~x & 0b11...1` with 26 ones: the letters that `x` does not use. */
  function Complement26(x: bv32): bv32 {
    !x & Low26
  }

  /** `1 << k`: the mask of the single letter at position `k`. */
  function Single(k: BitIndex): bv32 {
    1 << k
  }

  // ---------------------------------------------------------------------
  // What the bit-wise operators do to one bit.

  lemma OrBit(x: bv32, y: bv32, b: BitIndex)
    ensures Bit(x | y, b) == (Bit(x, b) || Bit(y, b))
  {}

  lemma AndBit(x: bv32, y: bv32, b: BitIndex)
    ensures Bit(x & y, b) == (Bit(x, b) && Bit(y, b))
  {}

  lemma XorBit(x: bv32, y: bv32, b: BitIndex)
    ensures Bit(x ^ y, b) == (Bit(x, b) != Bit(y, b))
  {}

  lemma AndOverOr(x: bv32, y: bv32, z: bv32)
    ensures (x | y) & z == (x & z) | (y & z)
  {}

  lemma OrZero(x: bv32, y: bv32)
    ensures (x | y == 0) == (x == 0 && y == 0)
  {}

  lemma SingleBit(k: BitIndex, b: BitIndex)
    ensures Bit(Single(k), b) == (b == k)
  {}

  lemma Low26Bit(b: BitIndex)
    ensures Bit(Low26, b) == (b < 26)
  {}

  lemma Complement26Bit(x: bv32, b: BitIndex)
    ensures Bit(Complement26(x), b) == (b < 26 && !Bit(x, b))
  {}

  /** A mask below 2^26 uses no position from 26 up. */
  lemma HighBitClear(x: bv32, b: BitIndex)
    requires x < 0x400_0000 && 26 <= b
    ensures !Bit(x, b)
  {}

  // ---------------------------------------------------------------------
  // Counting bits.

  /** Counts add up when the bits do, position by position. */
  lemma {:induction false} CountAdd(x: bv32, y: bv32, z: bv32, n: Width)
    requires forall b: BitIndex :: b < n ==> Ind(z, b) == Ind(x, b) + Ind(y, b)
    ensures CountBelow(z, n) == CountBelow(x, n) + CountBelow(y, n)
    decreases n
  {
    if n > 0 {
      CountAdd(x, y, z, n - 1);
    }
  }

  /** Counts are bounded by a sum when the bits are, position by position. */
  lemma {:induction false} CountSubadd(x: bv32, y: bv32, z: bv32, n: Width)
    requires forall b: BitIndex :: b < n ==> Ind(z, b) <= Ind(x, b) + Ind(y, b)
    ensures CountBelow(z, n) <= CountBelow(x, n) + CountBelow(y, n)
    decreases n
  {
    if n > 0 {
      CountSubadd(x, y, z, n - 1);
    }
  }

  lemma {:induction false} CountFull(x: bv32, n: Width)
    requires forall b: BitIndex :: b < n ==> Bit(x, b)
    ensures CountBelow(x, n) == n as int
    decreases n
  {
    if n > 0 {
      CountFull(x, n - 1);
    }
  }

  lemma {:induction false} CountNone(x: bv32, n: Width)
    requires forall b: BitIndex :: b < n ==> !Bit(x, b)
    ensures CountBelow(x, n) == 0
    decreases n
  {
    if n > 0 {
      CountNone(x, n - 1);
    }
  }

  /** Positions from `n` up to `m` that are clear add nothing to the count. */
  lemma {:induction false} CountClearAbove(x: bv32, n: Width, m: Width)
    requires n <= m
    requires forall b: BitIndex :: n <= b < m ==> !Bit(x, b)
    ensures CountBelow(x, m) == CountBelow(x, n)
    decreases m
  {
    if n < m {
      CountClearAbove(x, n, m - 1);
    }
  }

  lemma {:induction false} CountSingle(x: bv32, k: BitIndex, n: Width)
    requires forall b: BitIndex :: Bit(x, b) == (b == k)
    ensures CountBelow(x, n) == if n <= k then 0 else 1
    decreases n
  {
    if n > 0 {
      CountSingle(x, k, n - 1);
    }
  }

  /** The empty mask has no bits. (Stated for a variable: `PopCount(0)` on
      the literal would make the verifier evaluate the count bit by bit.) */
  lemma PopCountZero(x: bv32)
    requires x == 0
    ensures PopCount(x) == 0
  {
    CountNone(x, 32);
  }

  lemma PopCountLow26(x: bv32)
    requires x == Low26
    ensures PopCount(x) == 26
  {
    forall b: BitIndex | b < 26 ensures Bit(x, b) {
      Low26Bit(b);
    }
    forall b: BitIndex | 26 <= b < 32 ensures !Bit(x, b) {
      Low26Bit(b);
    }
    CountFull(x, 26);
    CountClearAbove(x, 26, 32);
  }

  lemma PopCountSingle(k: BitIndex)
    ensures PopCount(Single(k)) == 1
  {
    forall b: BitIndex ensures Bit(Single(k), b) == (b == k) {
      SingleBit(k, b);
    }
    CountSingle(Single(k), k, 32);
  }

  /** Or-ing in one more letter raises the count by at most one. */
  lemma PopCountOrSingle(x: bv32, k: BitIndex)
    ensures PopCount(x | Single(k)) <= PopCount(x) + 1
  {
    forall b: BitIndex | b < 32
      ensures Ind(x | Single(k), b) <= Ind(x, b) + Ind(Single(k), b)
    {
      OrBit(x, Single(k), b);
    }
    CountSubadd(x, Single(k), x | Single(k), 32);
    PopCountSingle(k);
  }

  /** The count of a union of two disjoint masks is the sum of their counts. */
  lemma PopCountDisjointUnion(x: bv32, y: bv32)
    requires x & y == 0
    ensures PopCount(x | y) == PopCount(x) + PopCount(y)
  {
    forall b: BitIndex | b < 32 ensures Ind(x | y, b) == Ind(x, b) + Ind(y, b) {
      OrBit(x, y, b);
      AndBit(x, y, b);
    }
    CountAdd(x, y, x | y, 32);
  }

  /** Within 26 bits, a mask and its complement share the 26 letters. */
  lemma PopCountComplement26(x: bv32)
    requires x < 0x400_0000
    ensures PopCount(Complement26(x)) == 26 - PopCount(x)
  {
    forall b: BitIndex | b < 32
      ensures Ind(Low26, b) == Ind(x, b) + Ind(Complement26(x), b)
    {
      Complement26Bit(x, b);
      Low26Bit(b);
      if 26 <= b {
        HighBitClear(x, b);
      }
    }
    CountAdd(x, Complement26(x), Low26, 32);
    PopCountLow26(Low26);
  }

  lemma FlipBit(x: bv32, k: BitIndex, b: BitIndex)
    ensures Bit(x, k) ==> Ind(x, b) == Ind(Single(k) ^ x, b) + Ind(Single(k), b)
    ensures !Bit(x, k) ==> Ind(Single(k) ^ x, b) == Ind(x, b) + Ind(Single(k), b)
  {}

  /** Flipping one bit moves the count down by one if the bit was set, else up by one. */
  lemma PopCountFlip(x: bv32, k: BitIndex)
    ensures Bit(x, k) ==> PopCount(Single(k) ^ x) + 1 == PopCount(x)
    ensures !Bit(x, k) ==> PopCount(Single(k) ^ x) == PopCount(x) + 1
  {
    var q := Single(k) ^ x;
    PopCountSingle(k);
    forall b: BitIndex | b < 32 {
      FlipBit(x, k, b);
    }
    if Bit(x, k) {
      CountAdd(q, Single(k), x, 32);
    } else {
      CountAdd(x, Single(k), q, 32);
    }
  }

  /** Two masks within the 26 letter positions have a union within them too. */
  lemma OrBelow26(x: bv32, y: bv32)
    requires x < 0x400_0000 && y < 0x400_0000
    ensures x | y < 0x400_0000
  {}

  // ---------------------------------------------------------------------
  // The missing-letter test of the search: `(1 << k) ^ (~x & Low26)`.

  /** With 15 of the 26 letters in `x`, flipping letter `k` in the complement
      leaves 10 letters when `x` lacks `k`, ... */
  lemma {:induction false} FlipComplementAbsent(x: bv32, k: BitIndex)
    requires x < 0x400_0000 && k < 26 && PopCount(x) == 15 && !Bit(x, k)
    ensures PopCount(Single(k) ^ Complement26(x)) == 10
  {
    PopCountComplement26(x);
    Complement26Bit(x, k);
    PopCountFlip(Complement26(x), k);
  }

  /** ... and 12 when `x` has it. */
  lemma {:induction false} FlipComplementPresent(x: bv32, k: BitIndex)
    requires x < 0x400_0000 && k < 26 && PopCount(x) == 15 && Bit(x, k)
    ensures PopCount(Single(k) ^ Complement26(x)) == 12
  {
    PopCountComplement26(x);
    Complement26Bit(x, k);
    PopCountFlip(Complement26(x), k);
  }

  lemma FlipComplementTest(x: bv32, k: BitIndex)
    requires x < 0x400_0000 && k < 26 && PopCount(x) == 15
    ensures PopCount(Single(k) ^ Complement26(x)) == 10 <==> !Bit(x, k)
  {
    if Bit(x, k) {
      FlipComplementPresent(x, k);
    } else {
      FlipComplementAbsent(x, k);
    }
  }

  /** When `x` lacks letter `k`, `x` and the flipped complement together cover
      every letter but `k`, ... */
  lemma ComplementFlipCover(x: bv32, k: BitIndex)
    requires x < 0x400_0000 && k < 26 && !Bit(x, k)
    ensures x | (Single(k) ^ Complement26(x)) == Low26 ^ Single(k)
  {}

  /** ... without sharing a letter. */
  lemma ComplementFlipDisjoint(x: bv32, k: BitIndex)
    requires !Bit(x, k)
    ensures x & (Single(k) ^ Complement26(x)) == 0
  {}

  /** The flipped complement is the only mask that does this. */
  lemma ComplementFlipOfCover(x: bv32, w: bv32, k: BitIndex)
    requires x & w == 0 && x | w == Low26 ^ Single(k) && k < 26
    ensures Single(k) ^ Complement26(x) == w
  {}
}

