/** What the functions of SHA-256 do to each bit (sections 3.2 and 4.1.2 of FIPS 180-2). */
module Sha256Functions {
  import opened ModArith
  import opened BigNum
  import opened Bits
  import opened Words
  import opened Sha256Spec

  lemma WordBits()
    ensures Pow(2, 32) == BASE
  {
    assert Pow(2, 8) == 256;
    PowAdd(2, 8, 8);
    PowAdd(2, 16, 16);
  }

  lemma {:induction false} ShiftRightAt(x: Word, n: nat, i: nat)
    ensures BitAt(SHR(x, n), i) == BitAt(x, i + n)
  {
    if n > 0 { ShiftRightAt(x / 2, n - 1, i); }
  }

  lemma {:induction false} ShiftLeftAt(x: Word, n: nat, i: nat)
    requires i < 32
    ensures BitAt(SHL(x, n), i) == (n <= i && BitAt(x, i - n))
    decreases n
  {
    if n > 0 {
      ShiftLeftAt(2 * x % BASE, n - 1, i);
      if n - 1 <= i { DoubledAt(x, i - (n - 1)); }
    }
  }

  lemma DoubledAt(x: Word, i: nat)
    requires i < 32
    ensures BitAt(2 * x % BASE, i) == (i > 0 && BitAt(x, i - 1))
  {
    WordBits();
    LowBitAt(2 * x, 32, i);
    assert 2 * x / 2 == x && 2 * x % 2 == 0;
  }

  /** A word rotated to the right takes bit i from n places higher, around its end. */
  lemma RotateAt(x: Word, n: nat, i: nat)
    requires n <= 32 && i < 32
    ensures BitAt(ROTR(x, n), i) == BitAt(x, if i + n < 32 then i + n else i + n - 32)
  {
    OrAt(SHR(x, n), SHL(x, 32 - n), i);
    ShiftRightAt(x, n, i);
    ShiftLeftAt(x, 32 - n, i);
    if i + n >= 32 {
      WordBits();
      HighBitAt(x, 32, i + n);
    }
  }

  /** Each bit of the first chooses between the others. */
  lemma ChooseAt(x: Word, y: Word, z: Word, i: nat)
    requires i < 32
    ensures BitAt(Ch(x, y, z), i) == if BitAt(x, i) then BitAt(y, i) else BitAt(z, i)
  {
    WordBits();
    NotAt(x, 32, i);
    AndAt(x, y, i);
    AndAt(Not(x), z, i);
    XorAt(And(x, y), And(Not(x), z), i);
  }

  /** Each bit is that of at least two of the three. */
  lemma MajorityAt(x: Word, y: Word, z: Word, i: nat)
    ensures BitAt(Maj(x, y, z), i) == if BitAt(x, i) == BitAt(y, i) then BitAt(x, i) else BitAt(z, i)
  {
    AndAt(x, y, i);
    AndAt(x, z, i);
    AndAt(y, z, i);
    XorAt(And(x, y), And(x, z), i);
    XorAt(Xor(And(x, y), And(x, z)), And(y, z), i);
  }

  /** Bit i of a word counted around its end. */
  predicate Around(x: Word, i: nat) { BitAt(x, if i < 32 then i else i - 32) }

  /** An odd number of the three. */
  predicate Parity(a: bool, b: bool, c: bool) { (a != b) != c }

  lemma BigSigmasAt(x: Word, i: nat)
    requires i < 32
    ensures BitAt(BigSigma0(x), i) == Parity(Around(x, i + 2), Around(x, i + 13), Around(x, i + 22))
    ensures BitAt(BigSigma1(x), i) == Parity(Around(x, i + 6), Around(x, i + 11), Around(x, i + 25))
  {
    RotationsAt(x, 2, 13, 22, i);
    RotationsAt(x, 6, 11, 25, i);
  }

  lemma SmallSigmasAt(x: Word, i: nat)
    requires i < 32
    ensures BitAt(SmallSigma0(x), i) == Parity(Around(x, i + 7), Around(x, i + 18), i + 3 < 32 && BitAt(x, i + 3))
    ensures BitAt(SmallSigma1(x), i) == Parity(Around(x, i + 17), Around(x, i + 19), i + 10 < 32 && BitAt(x, i + 10))
  {
    RotationsAndShiftAt(x, 7, 18, 3, i);
    RotationsAndShiftAt(x, 17, 19, 10, i);
  }

  lemma RotationsAt(x: Word, a: nat, b: nat, c: nat, i: nat)
    requires a <= 32 && b <= 32 && c <= 32 && i < 32
    ensures BitAt(Xor(Xor(ROTR(x, a), ROTR(x, b)), ROTR(x, c)), i)
         == Parity(Around(x, i + a), Around(x, i + b), Around(x, i + c))
  {
    RotateAt(x, a, i);
    RotateAt(x, b, i);
    RotateAt(x, c, i);
    XorAt(ROTR(x, a), ROTR(x, b), i);
    XorAt(Xor(ROTR(x, a), ROTR(x, b)), ROTR(x, c), i);
  }

  lemma ShiftedAt(x: Word, n: nat, i: nat)
    ensures BitAt(SHR(x, n), i) == (i + n < 32 && BitAt(x, i + n))
  {
    ShiftRightAt(x, n, i);
    if i + n >= 32 {
      WordBits();
      HighBitAt(x, 32, i + n);
    }
  }

  lemma RotationsAndShiftAt(x: Word, a: nat, b: nat, c: nat, i: nat)
    requires a <= 32 && b <= 32 && i < 32
    ensures BitAt(Xor(Xor(ROTR(x, a), ROTR(x, b)), SHR(x, c)), i)
         == Parity(Around(x, i + a), Around(x, i + b), i + c < 32 && BitAt(x, i + c))
  {
    RotateAt(x, a, i);
    RotateAt(x, b, i);
    ShiftedAt(x, c, i);
    XorAt(ROTR(x, a), ROTR(x, b), i);
    XorAt(Xor(ROTR(x, a), ROTR(x, b)), SHR(x, c), i);
  }

  /** The padding is a one bit, the fewest zeros that complete a block, and the length in bits in eight octets. */
  lemma PaddingOctets(len: nat)
    requires len < 0x2000_0000_0000_0000
    ensures var p := Padding(len);
            && 9 <= |p| < 9 + 64 && (len + |p|) % 64 == 0 && p[0] == 0x80
            && (forall k :: 1 <= k < |p| - 8 ==> p[k] == 0) && OS2IP(p[|p| - 8..]) == 8 * len
  {
    var zeros, length := Zeros(ZeroCount(len)), I2OSP(8 * len, 8);
    assert Padding(len) == [0x80] + zeros + length;
    assert Padding(len)[1 + |zeros|..] == length;
    assert Pow(256, 8) == 0x1_0000_0000_0000_0000 by {
      assert Pow(256, 4) == 0x1_0000_0000 by { PowUnrolled(); }
      PowAdd(256, 4, 4);
    }
    BytesDetermineInteger(8 * len, 8);
    PaddedLength(len, ZeroCount(len));
  }

  lemma PaddedLength(len: nat, zeros: nat)
    requires zeros == (55 - len) % 64
    ensures (len + 1 + zeros + 8) % 64 == 0
  {
  }

  /** Taking the final working variables away from the new hash value, modulo 2^32, gives back the old one. */
  lemma CompressionAddsIn(h: Hash, block: Block, k: nat)
    requires k < 8
    ensures var v := Rounds(ToVars(h), block, |block|);
            (Compress(h, block)[k] - [v.a, v.b, v.c, v.d, v.e, v.f, v.g, v.h][k]) % BASE == h[k]
  {
    AddedIn(h, Rounds(ToVars(h), block, |block|), k);
  }

  lemma AddedIn(h: Hash, v: Vars, k: nat)
    requires k < 8
    ensures (AddVars(h, v)[k] - [v.a, v.b, v.c, v.d, v.e, v.f, v.g, v.h][k]) % BASE == h[k]
  {
    SumLessOne(h[k], [v.a, v.b, v.c, v.d, v.e, v.f, v.g, v.h][k], AddVars(h, v)[k]);
  }

  lemma SumLessOne(x: Word, y: Word, sum: Word)
    requires sum == (x + y) % BASE
    ensures (sum - y) % BASE == x
  {
  }

  /** The rounds as a shift register: b, c and d are a of one, two and three rounds ago, and f, g and h are e. */
  lemma {:induction false} ShiftRegister(v: Vars, block: Block, t: nat)
    requires 3 <= t <= 64
    ensures var r, r1, r2, r3 := Rounds(v, block, t), Rounds(v, block, t - 1), Rounds(v, block, t - 2), Rounds(v, block, t - 3);
            r.b == r1.a && r.c == r2.a && r.d == r3.a && r.f == r1.e && r.g == r2.e && r.h == r3.e
  {
    assert Rounds(v, block, t - 1) == Round(Rounds(v, block, t - 2), K[t - 2], W(block, t - 2));
    assert Rounds(v, block, t - 2) == Round(Rounds(v, block, t - 3), K[t - 3], W(block, t - 3));
  }

  /** So the rounds are a recurrence of two sequences, of which each round takes the last four values. */
  lemma {:induction false} TwoSequences(v: Vars, block: Block, t: nat)
    requires 3 <= t < 64
    ensures var r, r1, r2, r3 := Rounds(v, block, t), Rounds(v, block, t - 1), Rounds(v, block, t - 2), Rounds(v, block, t - 3);
            Rounds(v, block, t + 1) == Round(Vars(r.a, r1.a, r2.a, r3.a, r.e, r1.e, r2.e, r3.e), K[t], W(block, t))
  {
    ShiftRegister(v, block, t);
    OneRoundMore(v, block, t);
  }

  lemma {:induction false} OneRoundMore(v: Vars, block: Block, t: nat)
    requires t < 64
    ensures Rounds(v, block, t + 1) == Round(Rounds(v, block, t), K[t], W(block, t))
  {
  }

  /** A new e is a of four rounds ago and a sum of e, of the constant and of the schedule; a new a is that sum and one of
      a. */
  lemma RoundSums(v: Vars, k: Word, w: Word)
    ensures var sum := v.h + BigSigma1(v.e) + Ch(v.e, v.f, v.g) + k + w;
            && Round(v, k, w).e == (v.d + sum) % BASE
            && Round(v, k, w).a == (sum + BigSigma0(v.a) + Maj(v.a, v.b, v.c)) % BASE
  {
    SumOfRemainders(v.h + BigSigma1(v.e) + Ch(v.e, v.f, v.g) + k + w, BigSigma0(v.a) + Maj(v.a, v.b, v.c), v.d);
  }

  lemma SumOfRemainders(x: nat, y: nat, z: nat)
    ensures (x % BASE + y % BASE) % BASE == (x + y) % BASE && (z + x % BASE) % BASE == (z + x) % BASE
  {
  }

  /** The first sixteen words of the schedule are the block, and each word is the sum of the one sixteen places back and
      three others. */
  lemma {:induction false} ScheduleWords(block: Block, t: nat)
    ensures t < 16 ==> W(block, t) == OS2IP(block[4 * t..4 * t + 4])
    ensures t >= 16 ==>
              (W(block, t) - W(block, t - 16)) % BASE
              == (SmallSigma1(W(block, t - 2)) + W(block, t - 7) + SmallSigma0(W(block, t - 15))) % BASE
  {
    if t >= 16 {
      var rest := SmallSigma1(W(block, t - 2)) + W(block, t - 7) + SmallSigma0(W(block, t - 15));
      LessOne(rest, W(block, t - 16), W(block, t));
    } else {
      WordIsOS2IP(block[4 * t..4 * t + 4]);
    }
  }

  lemma LessOne(x: nat, y: Word, sum: Word)
    requires sum == (x + y) % BASE
    ensures (sum - y) % BASE == x % BASE
  {
  }
}
