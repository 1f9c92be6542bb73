/** The eight row bits of a column byte. */
module ColumnBits {
  const ROWS := 8

  /** 1 << i. */
  function Mask(i: nat): bv8
    requires i < ROWS
  {
    if i == 0 then 1 else Mask(i - 1) << 1
  }

  /** Bit i of x. */
  predicate Bit(x: bv8, i: nat)
    requires i < ROWS
  {
    if i == 0 then x & 1 != 0 else Bit(x >> 1, i - 1)
  }

  lemma MaskValues()
    ensures Mask(0) == 1 && Mask(1) == 2 && Mask(2) == 4 && Mask(3) == 8
    ensures Mask(4) == 16 && Mask(5) == 32 && Mask(6) == 64 && Mask(7) == 128
  {
    assert Mask(2) == Mask(1) << 1 && Mask(4) == Mask(3) << 1 && Mask(6) == Mask(5) << 1;
  }

  lemma MaskIsSmall(i: nat)
    requires i < 7
    ensures Mask(i) < 128
  {
    MaskValues();
    match i case 0 => case 1 => case 2 => case 3 => case 4 => case 5 => case _ => assert i == 6;
  }

  /** The test the code makes. */
  lemma {:induction false} BitIsMask(x: bv8, i: nat)
    requires i < ROWS
    ensures Bit(x, i) <==> x & Mask(i) != 0
  {
    if i > 0 {
      var m := Mask(i - 1);
      MaskIsSmall(i - 1);
      BitIsMask(x >> 1, i - 1);
      assert m < 128 ==> ((x >> 1) & m != 0 <==> x & (m << 1) != 0);
    }
  }

  lemma {:induction false} BitOfXor(x: bv8, y: bv8, i: nat)
    requires i < ROWS
    ensures Bit(x ^ y, i) == (Bit(x, i) != Bit(y, i))
  {
    if i > 0 {
      assert (x ^ y) >> 1 == (x >> 1) ^ (y >> 1);
      BitOfXor(x >> 1, y >> 1, i - 1);
    }
  }

  lemma {:induction false} BitOfAnd(x: bv8, y: bv8, i: nat)
    requires i < ROWS
    ensures Bit(x & y, i) == (Bit(x, i) && Bit(y, i))
  {
    ShiftOfAnd(x, y);
    if i > 0 {
      BitOfAnd(x >> 1, y >> 1, i - 1);
    }
  }

  lemma ShiftOfAnd(x: bv8, y: bv8)
    ensures (x & y) >> 1 == (x >> 1) & (y >> 1)
    ensures (x & y) & 1 != 0 <==> x & 1 != 0 && y & 1 != 0
  {
  }

  lemma {:induction false} BitOfOr(x: bv8, y: bv8, i: nat)
    requires i < ROWS
    ensures Bit(x | y, i) == (Bit(x, i) || Bit(y, i))
  {
    if i > 0 {
      assert (x | y) >> 1 == (x >> 1) | (y >> 1);
      BitOfOr(x >> 1, y >> 1, i - 1);
    }
  }

  lemma {:induction false} BitOfComplement(x: bv8, i: nat)
    requires i < ROWS
    ensures Bit(!x, i) == !Bit(x, i)
  {
    BitIsMask(x, i);
    BitIsMask(!x, i);
    MaskValues();
    match i case 0 => case 1 => case 2 => case 3 => case 4 => case 5 => case 6 => case _ => assert i == 7;
  }

  lemma {:induction false} ZeroBits(i: nat)
    requires i < ROWS
    ensures !Bit(0, i)
  {
    if i > 0 { ZeroBits(i - 1); }
  }

  lemma {:induction false} MaskHasOneBit(m: nat, i: nat)
    requires m < ROWS && i < ROWS
    ensures Bit(Mask(m), i) <==> i == m
  {
    if m == 0 {
      if i > 0 { ZeroBits(i - 1); }
    } else if i > 0 {
      MaskIsSmall(m - 1);
      MaskHasOneBit(m - 1, i - 1);
      var b := Mask(m - 1);
      assert b < 128 ==> (b << 1) >> 1 == b;
    }
  }

  /** Clearing one bit, as in x &= ~mask. */
  lemma BitCleared(x: bv8, i: nat, k: nat)
    requires i < ROWS && k < ROWS
    ensures Bit(x & !Mask(i), k) == (k != i && Bit(x, k))
  {
    BitOfAnd(x, !Mask(i), k);
    BitOfComplement(Mask(i), k);
    MaskHasOneBit(i, k);
  }

  /** Flipping one bit, as in x ^= mask. */
  lemma BitFlipped(x: bv8, i: nat, k: nat)
    requires i < ROWS && k < ROWS
    ensures Bit(x ^ Mask(i), k) == if k == i then !Bit(x, k) else Bit(x, k)
  {
    BitOfXor(x, Mask(i), k);
    MaskHasOneBit(i, k);
  }

  /** Two columns agree under a mask exactly when they agree in its bit. */
  lemma SameBit(x: bv8, y: bv8, i: nat)
    requires i < ROWS
    ensures x & Mask(i) == y & Mask(i) <==> Bit(x, i) == Bit(y, i)
  {
    BitIsMask(x, i);
    BitIsMask(y, i);
    MaskValues();
    match i case 0 => case 1 => case 2 => case 3 => case 4 => case 5 => case 6 => case _ => assert i == 7;
  }

  /** Two bits are set. */
  ghost predicate TwoBits(x: bv8) {
    exists i, k :: 0 <= i < k < ROWS && Bit(x, i) && Bit(x, k)
  }

  lemma {:induction false} SomeBit(x: bv8) returns (i: nat)
    requires x != 0
    ensures i < ROWS && Bit(x, i)
  {
    MaskValues();
    i := if x & 1 != 0 then 0 else if x & 2 != 0 then 1 else if x & 4 != 0 then 2 else if x & 8 != 0 then 3
         else if x & 16 != 0 then 4 else if x & 32 != 0 then 5 else if x & 64 != 0 then 6 else 7;
    BitIsMask(x, i);
  }

  /** Clearing the lowest set bit leaves something exactly when two bits are set. */
  lemma MoreThanOneBit(x: bv8)
    ensures x & (x - 1) != 0 <==> TwoBits(x)
  {
    MaskValues();
    if x & (x - 1) == 0 {
      var m: nat := if x == 1 then 0 else if x == 2 then 1 else if x == 4 then 2 else if x == 8 then 3
                    else if x == 16 then 4 else if x == 32 then 5 else if x == 64 then 6 else 7;
      assert x == 0 || x == Mask(m);
      forall i | 0 <= i < ROWS ensures Bit(x, i) ==> i == m {
        ZeroBits(i);
        MaskHasOneBit(m, i);
      }
    } else {
      var i := SomeBit(x);
      assert x != Mask(i) by {
        match i case 0 => case 1 => case 2 => case 3 => case 4 => case 5 => case 6 => case _ => assert i == 7;
      }
      var rest := x ^ Mask(i);
      var k := SomeBit(rest);
      BitFlipped(x, i, k);
    }
  }
}
