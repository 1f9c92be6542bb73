/** Bitwise operators on natural numbers, bit by bit. */
module Bits {
  import opened ModArith

  function And(x: nat, y: nat): nat {
    if x == 0 || y == 0 then 0 else (if x % 2 == 1 && y % 2 == 1 then 1 else 0) + 2 * And(x / 2, y / 2)
  }

  function Or(x: nat, y: nat): nat {
    if x == 0 then y else if y == 0 then x
    else (if x % 2 + y % 2 > 0 then 1 else 0) + 2 * Or(x / 2, y / 2)
  }

  function Xor(x: nat, y: nat): nat
    decreases x + y
  {
    if x == 0 && y == 0 then 0 else (x + y) % 2 + 2 * Xor(x / 2, y / 2)
  }

  lemma {:induction false} XorIsZero(x: nat, y: nat)
    ensures Xor(x, y) == 0 <==> x == y
    decreases x + y
  {
    if x != 0 || y != 0 { XorIsZero(x / 2, y / 2); }
  }

  lemma {:induction false} OrIsZero(x: nat, y: nat)
    ensures Or(x, y) == 0 <==> x == 0 && y == 0
  {
    if x != 0 && y != 0 { OrIsZero(x / 2, y / 2); }
  }

  /** Masking with a power of two less one is the remainder. */
  lemma {:induction false} MaskIsRemainder(x: nat, k: nat)
    ensures Pow(2, k) > 0
    ensures And(x, Pow(2, k) - 1) == x % Pow(2, k)
  {
    PowPositive(2, k);
    if k > 0 {
      MaskIsRemainder(x / 2, k - 1);
      var p := Pow(2, k - 1);
      HalfRemainder(x, p);
      assert (2 * p - 1) % 2 == 1 && (2 * p - 1) / 2 == p - 1;
    }
  }

  lemma HalfRemainder(x: nat, p: nat)
    requires p > 0
    ensures x % (2 * p) == x % 2 + 2 * (x / 2 % p)
  {
    var q, r := x / 2 / p, x / 2 % p;
    assert x / 2 == q * p + r;
    assert x == q * (2 * p) + (x % 2 + 2 * r) by { assert q * (2 * p) == 2 * (q * p); }
    CongIntro(x, x % 2 + 2 * r, q, 2 * p);
    CongRemainder(x, x % 2 + 2 * r, 2 * p);
  }

  /** Bit i of a number. */
  predicate BitAt(x: nat, i: nat) { if i == 0 then x % 2 == 1 else BitAt(x / 2, i - 1) }

  lemma {:induction false} BitOfZero(i: nat)
    ensures !BitAt(0, i)
  {
    if i > 0 { BitOfZero(i - 1); }
  }

  lemma {:induction false} AndAt(x: nat, y: nat, i: nat)
    ensures BitAt(And(x, y), i) == (BitAt(x, i) && BitAt(y, i))
  {
    BitOfZero(i);
    if x != 0 && y != 0 && i > 0 { AndAt(x / 2, y / 2, i - 1); }
  }

  lemma {:induction false} OrAt(x: nat, y: nat, i: nat)
    ensures BitAt(Or(x, y), i) == (BitAt(x, i) || BitAt(y, i))
  {
    BitOfZero(i);
    if x != 0 && y != 0 && i > 0 { OrAt(x / 2, y / 2, i - 1); }
  }

  lemma {:induction false} XorAt(x: nat, y: nat, i: nat)
    ensures BitAt(Xor(x, y), i) == (BitAt(x, i) != BitAt(y, i))
    decreases i
  {
    XorByHalves(x, y);
    if i == 0 { SumIsOdd(x, y); } else { XorAt(x / 2, y / 2, i - 1); }
  }

  lemma {:induction false} XorByHalves(x: nat, y: nat)
    ensures Xor(x, y) % 2 == (x + y) % 2 && Xor(x, y) / 2 == Xor(x / 2, y / 2)
  {
    HalvesOf((x + y) % 2, Xor(x / 2, y / 2));
  }

  lemma HalvesOf(low: nat, high: nat)
    requires low < 2
    ensures (low + 2 * high) % 2 == low && (low + 2 * high) / 2 == high
  {
  }

  lemma {:induction false} SumIsOdd(x: nat, y: nat)
    ensures (x + y) % 2 == 1 <==> (x % 2 == 1) != (y % 2 == 1)
  {
  }

  /** A number of n bits has none from n on. */
  lemma {:induction false} HighBitAt(x: nat, n: nat, i: nat)
    requires x < Pow(2, n) && n <= i
    ensures !BitAt(x, i)
  {
    if n == 0 { BitOfZero(i); } else { HighBitAt(x / 2, n - 1, i - 1); }
  }

  /** The remainder by a power of two has the low bits. */
  lemma {:induction false} LowBitAt(x: nat, n: nat, i: nat)
    requires i < n
    ensures Pow(2, n) > 0 && BitAt(x % Pow(2, n), i) == BitAt(x, i)
  {
    PowPositive(2, n);
    PowPositive(2, n - 1);
    var p := Pow(2, n - 1);
    HalfRemainder(x, p);
    if i > 0 {
      LowBitAt(x / 2, n - 1, i - 1);
      assert x % (2 * p) / 2 == x / 2 % p;
    }
  }

  /** Subtracting from all ones turns every bit over. */
  lemma {:induction false} NotAt(x: nat, n: nat, i: nat)
    requires x < Pow(2, n) && i < n
    ensures BitAt(Pow(2, n) - 1 - x, i) == !BitAt(x, i)
  {
    var p := Pow(2, n - 1);
    assert (2 * p - 1 - x) / 2 == p - 1 - x / 2 && (2 * p - 1 - x) % 2 == 1 - x % 2;
    if i > 0 { NotAt(x / 2, n - 1, i - 1); }
  }
}
