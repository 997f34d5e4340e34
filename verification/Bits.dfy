/** The eight bits of a bitmap byte, and how `|=` and `&= ~` change them. */
module Bits {

  predicate Bit(b: bv8, k: nat)
    requires k < 8
  {
    b & (1 << k) != 0
  }

  function WithBit(b: bv8, k: nat): bv8
    requires k < 8
  {
    b | (1 << k)
  }

  function WithoutBit(b: bv8, k: nat): bv8
    requires k < 8
  {
    b & !(1 << k)
  }

  // Setting or clearing one bit leaves the other seven alone.
  lemma OneBitChanges(b: bv8, k: nat, j: nat)
    requires k < 8 && j < 8
    ensures Bit(WithBit(b, k), j) == (j == k || Bit(b, j))
    ensures Bit(WithoutBit(b, k), j) == (j != k && Bit(b, j))
  {
    assert k in {0, 1, 2, 3, 4, 5, 6, 7} && j in {0, 1, 2, 3, 4, 5, 6, 7};
  }

  // A byte is its eight bits.
  lemma ByteIsItsBits(b: bv8, c: bv8)
    requires forall k: nat | k < 8 :: Bit(b, k) == Bit(c, k)
    ensures b == c
  {
    assert Bit(b, 0) == Bit(c, 0) && Bit(b, 1) == Bit(c, 1) && Bit(b, 2) == Bit(c, 2) && Bit(b, 3) == Bit(c, 3);
    assert Bit(b, 4) == Bit(c, 4) && Bit(b, 5) == Bit(c, 5) && Bit(b, 6) == Bit(c, 6) && Bit(b, 7) == Bit(c, 7);
  }

  lemma AllOnes(k: nat)
    requires k < 8
    ensures Bit(0xFF, k)
  {
    assert k in {0, 1, 2, 3, 4, 5, 6, 7};
  }
}
