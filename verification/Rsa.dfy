/**
 * RSA signature verification by Montgomery multiplication (common/rsa.c).
 * The number of words is a parameter; the firmware is built for 64, 128 or 256.
 */
module Rsa {
  import opened ModArith
  import opened BigNum
  import opened Bits
  import opened Words

  /** A pre-processed public key: modulus and R^2 as little-endian words, and -1/n[0] mod 2^32. */
  datatype PublicKey = PublicKey(n: seq<Word>, rr: seq<Word>, n0inv: Word) {
    function Size(): nat { |n| }

    function Modulus(): nat { Value(n) }

    /** R, the Montgomery radix: 2^(32 * number of words). */
    function Radix(): int { Shift(1, |n|) }

    /** What every multiplication needs of the key. */
    ghost predicate Usable() {
      && |n| > 0
      && |rr| == |n|
      && (n0inv * n[0] + 1) % BASE == 0
    }

    /** What exponentiation needs beside it: a modulus with its top bit set, and R^2 mod n. */
    ghost predicate Valid() {
      && Usable()
      && n[|n| - 1] >= 0x8000_0000
      && Cong(Value(rr), Radix() * Radix(), Modulus())
    }
  }

  /** The n0inv condition already makes the modulus odd. */
  lemma UsableKeyIsOdd(key: PublicKey)
    requires key.Usable()
    ensures key.Modulus() % 2 == 1
  {
    var n := key.n;
    var q := (key.n0inv * n[0] + 1) / BASE;
    assert key.n0inv * n[0] + 1 == BASE * q;
    var h, odd := n[0] / 2, n[0] % 2;
    assert key.n0inv * n[0] == 2 * (key.n0inv * h) + key.n0inv * odd;
    LowWordParity(n);
  }

  lemma {:induction false} LowWordParity(s: seq<Word>)
    requires |s| > 0
    ensures Value(s) % 2 == s[0] % 2
  {
    var k := |s| - 1;
    if k == 0 {
      assert s[..0] == [];
    } else {
      LowWordParity(s[..k]);
      BaseIsEven(Value(s[..k]), Shift(s[k], k - 1));
    }
  }

  lemma BaseIsEven(v: int, w: int)
    ensures (v + BASE * w) % 2 == v % 2
  {
    var x := BASE * w;
    assert x == 2 * (0x8000_0000 * w);
  }

  /** R can be cancelled modulo the (odd) modulus. */
  lemma CancelRadix(key: PublicKey, x: int, y: int)
    requires key.Usable()
    requires Cong(x * key.Radix(), y * key.Radix(), key.Modulus())
    ensures Cong(x, y, key.Modulus())
  {
    UsableKeyIsOdd(key);
    RadixInBits(|key.n|);
    assert x * key.Radix() == key.Radix() * x && y * key.Radix() == key.Radix() * y;
    CancelPow2(32 * |key.n|, x, y, key.Modulus());
  }

  /** The modulus is positive, and R is at most twice as large. */
  lemma ModulusBounds(key: PublicKey)
    requires key.Valid()
    ensures 0 < key.Modulus() && key.Radix() <= 2 * key.Modulus()
  {
    var k := |key.n| - 1;
    assert key.n == key.n[..k] + [key.n[k]];
    ShiftMono(0x8000_0000, key.n[k], k);
    ShiftAdd(0x8000_0000, 0x8000_0000, k);
    ShiftWord(1, k);
    ValueBound(key.n);
    ValueBound(key.n[..k]);
  }

  /** The verification primitive with e = 65537 (section 5.2.2 of RFC 3447), on any integer. */
  function RSAVP1(key: PublicKey, s: nat): nat
    requires key.Valid()
  {
    ModulusBounds(key);
    Pow(s, 65537) % key.Modulus()
  }

  /** a[] -= mod, modulo R. */
  method SubMod(key: PublicKey, a: array<Word>)
    requires a.Length == key.Size()
    modifies a
    ensures Value(a[..]) == old(Value(a[..])) - key.Modulus()
                            + (if old(Value(a[..])) < key.Modulus() then key.Radix() else 0)
  {
    ghost var a0 := a[..];
    var A: SignedDoubleWord := 0;
    var i := 0;
    while i < key.Size()
      invariant 0 <= i <= a.Length
      invariant -1 <= A <= 0
      invariant a[i..] == a0[i..]
      invariant Value(a[..i]) + Shift(A, i) == Value(a0[..i]) - Value(key.n[..i])
    {
      ghost var was, done := A, a[..i];
      assert a[i] == a[i..][0] == a0[i];
      A := A + (a[i] as int - key.n[i] as int);
      a[i] := A % BASE;
      A := A / BASE;
      assert a[..][..i] == done && a[..][..i + 1] == a[..i + 1];
      ValueSnoc(a[..], i);
      ValueSnoc(a0, i);
      ValueSnoc(key.n, i);
      BorrowStep(was, a0[i], key.n[i], a[i], A, i);
      i := i + 1;
    }
    assert a[..] == a[..i] && a0 == a0[..i] && key.n == key.n[..i];
    ValueBound(a[..]);
    ValueBound(a0);
    ValueBound(key.n);
    ShiftAdd(1, -1, i);
    ZeroShift(i);
  }

  lemma BorrowStep(was: int, x: Word, y: Word, digit: Word, carry: int, i: nat)
    requires was + (x as int - y as int) == carry * BASE + digit
    ensures Shift(was, i) + Shift(x, i) - Shift(y, i) == Shift(digit, i) + Shift(carry, i + 1)
  {
    ShiftWord(carry, i);
    ShiftAdd(was, x, i);
    ShiftAdd(carry * BASE + digit, y, i);
    ShiftAdd(carry * BASE, digit, i);
    assert carry * BASE + digit + y == was + x as int;
  }

  /** a[] >= mod. */
  method GeMod(key: PublicKey, a: array<Word>) returns (ge: bool)
    requires a.Length == key.Size()
    ensures ge == (Value(a[..]) >= key.Modulus())
  {
    var i := key.Size();
    while i > 0
      invariant 0 <= i <= a.Length
      invariant a[i..] == key.n[i..]
    {
      i := i - 1;
      if a[i] < key.n[i] {
        HighestDifference(a[..], key.n, i);
        return false;
      }
      if a[i] > key.n[i] {
        HighestDifference(key.n, a[..], i);
        return true;
      }
    }
    assert a[..] == a[0..] && key.n == key.n[0..];
    return true;
  }

  /** The highest differing word decides which of two numbers is smaller. */
  lemma {:induction false} HighestDifference(s: seq<Word>, t: seq<Word>, i: nat)
    requires i < |s| == |t|
    requires s[i] < t[i] && s[i + 1..] == t[i + 1..]
    ensures Value(s) < Value(t)
  {
    var k := |s| - 1;
    if i == k {
      ValueBound(s[..k]);
      ValueBound(t[..k]);
      ShiftAdd(s[k], 1, k);
      ShiftMono(s[k] + 1, t[k], k);
    } else {
      assert s[k] == s[i + 1..][k - i - 1] == t[k];
      assert s[..k][i + 1..] == s[i + 1..][..k - i - 1] == t[..k][i + 1..];
      HighestDifference(s[..k], t[..k], i);
    }
  }

  /** Column i of c + a * b + d0 * n: a sum of single-word products, before carries. */
  ghost function Column(key: PublicKey, c: seq<Word>, a: Word, b: seq<Word>, d0: Word, i: nat): int
    requires i < |key.n| == |b| == |c|
  {
    a * b[i] + c[i] + d0 * key.n[i]
  }

  /** The lowest i columns of c + a * b + d0 * n. */
  ghost function Columns(key: PublicKey, c: seq<Word>, a: Word, b: seq<Word>, d0: Word, i: nat): int
    requires i <= |key.n| == |b| == |c|
  {
    if i == 0 then 0 else Columns(key, c, a, b, d0, i - 1) + Shift(Column(key, c, a, b, d0, i - 1), i - 1)
  }

  lemma {:induction false} ColumnsMeanTheSum(key: PublicKey, c: seq<Word>, a: Word, b: seq<Word>, d0: Word, i: nat)
    requires i <= |key.n| == |b| == |c|
    ensures Columns(key, c, a, b, d0, i) == Value(c[..i]) + a * Value(b[..i]) + d0 * Value(key.n[..i])
  {
    if i > 0 {
      var k := i - 1;
      ColumnsMeanTheSum(key, c, a, b, d0, k);
      ValueSnoc(b, k);
      ValueSnoc(c, k);
      ValueSnoc(key.n, k);
      ShiftedColumn(key, c, a, b, d0, k);
      DistMul(a, Value(b[..k]), Shift(b[k], k));
      DistMul(d0, Value(key.n[..k]), Shift(key.n[k], k));
    }
  }

  lemma ShiftedColumn(key: PublicKey, c: seq<Word>, a: Word, b: seq<Word>, d0: Word, i: nat)
    requires i < |key.n| == |b| == |c|
    ensures Shift(Column(key, c, a, b, d0, i), i) == Shift(c[i], i) + a * Shift(b[i], i) + d0 * Shift(key.n[i], i)
  {
    var x, y := a * b[i], d0 * key.n[i];
    ShiftAdd(x + c[i], y, i);
    ShiftAdd(x, c[i], i);
    ShiftScale(a, b[i], i);
    ShiftScale(d0, key.n[i], i);
  }

  /** A product of two words leaves room for two more words in 64 bits. */
  lemma ProductBound(x: Word, y: Word)
    ensures 0 <= x * y <= (BASE - 1) * (BASE - 1)
  {
    MulMono(0, x, y);
    MulMono(x, BASE - 1, y);
  }

  /**
   * Montgomery c[] += a * b[] / R % mod, one word of the multiplier at a time.
   * Both accumulators stay below 2^64 throughout.
   */
  method MontMulAdd(key: PublicKey, c: array<Word>, a: Word, b: seq<Word>)
    requires key.Usable()
    requires c.Length == |b| == key.Size()
    modifies c
    ensures Cong(BASE * Value(c[..]), old(Value(c[..])) + a * Value(b), key.Modulus())
  {
    ghost var c0 := c[..];
    ProductBound(a, b[0]);
    var A: DoubleWord := a * b[0] + c[0];
    var d0: Word := (A % BASE * key.n0inv) % BASE;
    ProductBound(d0, key.n[0]);
    var B: DoubleWord := d0 * key.n[0] + A % BASE;
    LowWordVanishes(A % BASE, key.n0inv, key.n[0], d0);
    FirstColumn(key, c0, a, b, d0, A, B);
    var i := 1;
    while i < key.Size()
      invariant 1 <= i <= c.Length
      invariant c[i - 1..] == c0[i - 1..]
      invariant Columns(key, c0, a, b, d0, i) == BASE * Value(c[..i - 1]) + Shift(A / BASE + B / BASE, i)
    {
      A, B := NextWord(key, c, i, A, B, a, b, d0, c0);
      i := i + 1;
    }
    StoreTopWord(key, c, A / BASE + B / BASE, c0, a, b, d0);
  }

  /** One column: both accumulators take their high words on, and the low word of B is final. */
  method NextWord(key: PublicKey, c: array<Word>, i: nat, lastA: DoubleWord, lastB: DoubleWord, a: Word, b: seq<Word>,
                  d0: Word, ghost c0: seq<Word>)
    returns (A: DoubleWord, B: DoubleWord)
    requires 0 < i < key.Size() == c.Length == |b| == |c0| && c[i - 1..] == c0[i - 1..]
    requires Columns(key, c0, a, b, d0, i) == BASE * Value(c[..i - 1]) + Shift(lastA / BASE + lastB / BASE, i)
    modifies c
    ensures c[i..] == c0[i..]
    ensures Columns(key, c0, a, b, d0, i + 1) == BASE * Value(c[..i]) + Shift(A / BASE + B / BASE, i + 1)
  {
    ghost var hiA, hiB, done := lastA / BASE, lastB / BASE, c[..i - 1];
    assert c[i] == c[i - 1..][1] == c0[i];
    ProductBound(a, b[i]);
    ProductBound(d0, key.n[i]);
    A := lastA / BASE + a * b[i] + c[i];
    B := lastB / BASE + d0 * key.n[i] + A % BASE;
    c[i - 1] := B % BASE;
    assert c[i..] == c0[i..] by { assert c0[i..] == c0[i - 1..][1..]; }
    assert c[..i] == done + [B % BASE];
    NextColumn(key, c0, a, b, d0, i, hiA, hiB, A, B, done);
  }

  /** The carries become the top word; one subtraction makes room for what overflows it. */
  method StoreTopWord(key: PublicKey, c: array<Word>, A: DoubleWord, ghost c0: seq<Word>, ghost a: Word,
                      ghost b: seq<Word>, ghost d0: Word)
    requires 0 < key.Size() == c.Length == |b| == |c0|
    requires Columns(key, c0, a, b, d0, |c0|) == BASE * Value(c[..c.Length - 1]) + Shift(A, |c0|)
    modifies c
    ensures Cong(BASE * Value(c[..]), Value(c0) + a * Value(b), key.Modulus())
  {
    ghost var done := c[..c.Length - 1];
    c[key.Size() - 1] := A % BASE;
    assert c[..] == done + [A % BASE];
    LastColumn(key, c0, a, b, d0, A, done);
    if A / BASE != 0 {
      SubMod(key, c);
    }
  }

  lemma FirstColumn(key: PublicKey, c: seq<Word>, a: Word, b: seq<Word>, d0: Word, A: nat, B: nat)
    requires 0 < |key.n| == |b| == |c|
    requires A == a * b[0] + c[0] && B == d0 * key.n[0] + A % BASE && B % BASE == 0
    ensures Columns(key, c, a, b, d0, 1) == BASE * Value([]) + Shift(A / BASE + B / BASE, 1)
  {
    assert Columns(key, c, a, b, d0, 0) == 0;
    assert Column(key, c, a, b, d0, 0) == BASE * (A / BASE + B / BASE);
    ShiftWord(A / BASE + B / BASE, 0);
  }

  /** One turn of the loop: the low word of B is final, the high words carry on. */
  lemma NextColumn(key: PublicKey, c: seq<Word>, a: Word, b: seq<Word>, d0: Word, i: nat,
                   hiA: nat, hiB: nat, A: nat, B: nat, done: seq<Word>)
    requires 0 < i < |key.n| == |b| == |c| && |done| == i - 1
    requires A == hiA + a * b[i] + c[i] && B == hiB + d0 * key.n[i] + A % BASE
    requires Columns(key, c, a, b, d0, i) == BASE * Value(done) + Shift(hiA + hiB, i)
    ensures Columns(key, c, a, b, d0, i + 1) == BASE * Value(done + [B % BASE]) + Shift(A / BASE + B / BASE, i + 1)
  {
    var col := Column(key, c, a, b, d0, i);
    var hi, lo := A / BASE + B / BASE, B % BASE;
    assert hiA + hiB + col == BASE * hi + lo;
    ShiftAdd(hiA + hiB, col, i);
    ShiftAdd(BASE * hi, lo, i);
    ShiftWord(hi, i);
    assert (done + [lo])[..i - 1] == done;
    ShiftWord(lo, i - 1);
  }

  /** All columns together, with what overflows the top word. */
  lemma AllColumns(key: PublicKey, c: seq<Word>, a: Word, b: seq<Word>, d0: Word, A: nat, done: seq<Word>)
    requires 0 < |key.n| == |b| == |c| && |done| == |key.n| - 1
    requires Columns(key, c, a, b, d0, |c|) == BASE * Value(done) + Shift(A, |c|)
    ensures BASE * (Value(done + [A % BASE]) + Shift(A / BASE, |c|))
         == Value(c) + a * Value(b) + d0 * key.Modulus()
  {
    var k, top := |c| - 1, A / BASE;
    ColumnsMeanTheSum(key, c, a, b, d0, |c|);
    assert c == c[..|c|] && b == b[..|c|] && key.n == key.n[..|c|];
    assert (done + [A % BASE])[..k] == done;
    ShiftAdd(BASE * top, A % BASE, k);
    ShiftWord(A, k);
    ShiftWord(top, k);
    assert Shift(A, |c|) == BASE * (Shift(top, |c|) + Shift(A % BASE, k));
    assert Value(done + [A % BASE]) == Value(done) + Shift(A % BASE, k);
  }

  /** c + a * b + d0 * n is below 2^32 * (R + n). */
  lemma SumBound(key: PublicKey, c: seq<Word>, a: Word, b: seq<Word>, d0: Word)
    requires |key.n| == |b| == |c|
    ensures Value(c) + a * Value(b) + d0 * key.Modulus() < BASE * (key.Radix() + key.Modulus())
  {
    ValueBound(c);
    ValueBound(b);
    ValueBound(key.n);
    MulMono(a, BASE - 1, Value(b));
    MulMono(d0, BASE - 1, key.Modulus());
  }

  /** What is left overflows by at most one bit, and then one subtraction clears it. */
  lemma LastColumn(key: PublicKey, c: seq<Word>, a: Word, b: seq<Word>, d0: Word, A: nat, done: seq<Word>)
    requires 0 < |key.n| == |b| == |c| && |done| == |key.n| - 1
    requires Columns(key, c, a, b, d0, |c|) == BASE * Value(done) + Shift(A, |c|)
    ensures var low := Value(done + [A % BASE]);
            var sum := Value(c) + a * Value(b);
            if A / BASE == 0 then Cong(BASE * low, sum, key.Modulus())
            else low < key.Modulus() && Cong(BASE * (low - key.Modulus() + key.Radix()), sum, key.Modulus())
  {
    var n := key.Modulus();
    AllColumns(key, c, a, b, d0, A, done);
    SumBound(key, c, a, b, d0);
    ValueBound(key.n);
    OverflowByOneBit(key.Radix(), n, Value(done + [A % BASE]), Value(c) + a * Value(b), d0, A / BASE, |c|);
  }

  lemma OverflowByOneBit(R: int, n: nat, low: nat, sum: int, d0: int, top: nat, N: nat)
    requires R == Shift(1, N) > n
    requires BASE * (low + Shift(top, N)) == sum + d0 * n < BASE * (R + n)
    ensures if top == 0 then Cong(BASE * low, sum, n)
            else low < n && Cong(BASE * (low - n + R), sum, n)
  {
    if top == 0 {
      ZeroShift(N);
      CongIntro(BASE * low, sum, d0, n);
    } else {
      ShiftMono(1, top, N);
      if top >= 2 {
        ShiftMono(2, top, N);
        ShiftAdd(1, 1, N);
        assert false;
      }
      MulDist(d0, -BASE, n);
      CongIntro(BASE * (low - n + R), sum, d0 - BASE, n);
    }
  }

  /** n0inv makes the low word of c + a*b + d0*n vanish. */
  lemma LowWordVanishes(low: Word, n0inv: Word, n0: Word, d0: Word)
    requires (n0inv * n0 + 1) % BASE == 0
    requires d0 == (low * n0inv) % BASE
    ensures (d0 * n0 + low) % BASE == 0
  {
    var q := low * n0inv / BASE;
    var r := (n0inv * n0 + 1) / BASE;
    LowWordSum(low, n0inv, n0, d0, q, r);
    CongIntro(d0 * n0 + low, 0, low * r - q * n0, BASE);
    CongRemainder(d0 * n0 + low, 0, BASE);
  }

  lemma LowWordSum(low: int, n0inv: int, n0: int, d0: int, q: int, r: int)
    requires low * n0inv == q * BASE + d0 && n0inv * n0 + 1 == BASE * r
    ensures d0 * n0 + low == (low * r - q * n0) * BASE
  {
    calc {
      d0 * n0 + low;
      (low * n0inv - q * BASE) * n0 + low;
      low * n0inv * n0 + low - q * BASE * n0;
      { assert low * n0inv * n0 == low * (n0inv * n0); }
      low * (n0inv * n0 + 1) - q * BASE * n0;
      low * (BASE * r) - q * BASE * n0;
      { assert q * BASE * n0 == BASE * (q * n0) && low * (BASE * r) == BASE * (low * r); }
      BASE * (low * r - q * n0);
    }
  }

  /** Montgomery c[] = a[] * b[] / R % mod, for operands of any size up to R. */
  method MontMul(key: PublicKey, c: array<Word>, a: seq<Word>, b: seq<Word>)
    requires key.Usable()
    requires c.Length == |a| == |b| == key.Size()
    modifies c
    ensures Cong(Value(c[..]) * key.Radix(), Value(a) * Value(b), key.Modulus())
  {
    var i := 0;
    while i < key.Size()
      invariant 0 <= i <= c.Length
      invariant forall k :: 0 <= k < i ==> c[k] == 0
    {
      c[i] := 0;
      i := i + 1;
    }
    ZeroValue(c[..]);
    assert a[..0] == [] && 0 * Value(b) == 0 && Shift(Value(c[..]), 0) == 0;
    CongRefl(0, key.Modulus());
    i := 0;
    while i < key.Size()
      invariant 0 <= i <= c.Length
      invariant Cong(Shift(Value(c[..]), i), Value(a[..i]) * Value(b), key.Modulus())
    {
      ghost var before := Value(c[..]);
      MontMulAdd(key, c, a[i], b);
      RowStep(key, i, a, Value(b), before, Value(c[..]));
      i := i + 1;
    }
    assert a == a[..i];
    ShiftIsMultiply(Value(c[..]), i);
    ShiftIsMultiply(1, i);
  }

  lemma {:induction false} ZeroValue(s: seq<Word>)
    requires forall k :: 0 <= k < |s| ==> s[k] == 0
    ensures Value(s) == 0
  {
    if s != [] {
      ZeroValue(s[..|s| - 1]);
      ZeroShift(|s| - 1);
    }
  }

  lemma RowStep(key: PublicKey, i: nat, a: seq<Word>, b: int, before: int, after: int)
    requires i < |a|
    requires Cong(Shift(before, i), Value(a[..i]) * b, key.Modulus())
    requires Cong(BASE * after, before + a[i] * b, key.Modulus())
    ensures Cong(Shift(after, i + 1), Value(a[..i + 1]) * b, key.Modulus())
  {
    AddShifted(before, after, a[i] * b, Value(a[..i]) * b, i, key.Modulus());
    ValueSnoc(a, i);
    ShiftTimes(a[i], b, i);
    MulDist(Value(a[..i]), Shift(a[i], i), b);
  }

  lemma ShiftTimes(x: int, b: int, i: nat)
    ensures Shift(x * b, i) == Shift(x, i) * b
  {
    ShiftScale(b, x, i);
  }

  lemma AddShifted(before: int, after: int, x: int, u: int, i: nat, n: int)
    requires Cong(Shift(before, i), u, n) && Cong(BASE * after, before + x, n)
    ensures Cong(Shift(after, i + 1), u + Shift(x, i), n)
  {
    ShiftCong(BASE * after, before + x, i, n);
    ShiftWord(after, i);
    ShiftAdd(before, x, i);
    CongRefl(Shift(x, i), n);
    CongAdd(Shift(before, i), u, Shift(x, i), Shift(x, i), n);
    CongTrans(Shift(after, i + 1), Shift(before + x, i), u + Shift(x, i), n);
  }

  lemma ShiftCong(x: int, y: int, i: nat, n: int)
    requires Cong(x, y, n)
    ensures Cong(Shift(x, i), Shift(y, i), n)
  {
    CongScale(Pow(BASE, i), x, y, n);
    ShiftIsMultiply(x, i);
    ShiftIsMultiply(y, i);
  }

  /** v is x^e in Montgomery form. */
  ghost predicate InMontgomery(key: PublicKey, v: int, x: int, e: nat) {
    Cong(v, Pow(x, e) * key.Radix(), key.Modulus())
  }

  /**
   * In-place public exponentiation. The three arrays are the three thirds of the work buffer;
   * aaR is also where the final product goes.
   */
  method ModPowF4(key: PublicKey, inout: array<Byte>, a: array<Word>, aR: array<Word>, aaR: array<Word>)
    requires key.Valid()
    requires inout.Length == 4 * key.Size()
    requires a.Length == aR.Length == aaR.Length == key.Size()
    requires a != aR && a != aaR && aR != aaR
    modifies inout, a, aR, aaR
    ensures inout[..] == I2OSP(RSAVP1(key, OS2IP(old(inout[..]))), inout.Length)
  {
    ghost var x := OS2IP(inout[..]);
    LoadWords(inout, a);
    MontMul(key, aR, a[..], key.rr);
    EnterMontgomery(key, Value(aR[..]), x);
    SquareSixteenTimes(key, aR, aaR, x);
    ghost var y := Value(aR[..]);
    MontMul(key, aaR, aR[..], a[..]);
    ghost var aaa := Value(aaR[..]);
    LeaveMontgomery(key, x, 65536, y, aaa);
    ValueBound(aaR[..]);
    var ge := GeMod(key, aaR);
    if ge {
      SubMod(key, aaR);
    }
    FullyReduced(key, Value(aaR[..]), aaa, x);
    StoreWords(aaR, inout);
  }

  /** The squaring loop of the exponentiation. */
  method SquareSixteenTimes(key: PublicKey, aR: array<Word>, aaR: array<Word>, ghost x: nat)
    requires key.Usable()
    requires aR.Length == aaR.Length == key.Size() && aR != aaR
    requires InMontgomery(key, Value(aR[..]), x, 1)
    modifies aR, aaR
    ensures InMontgomery(key, Value(aR[..]), x, 65536)
  {
    ghost var e: nat, half: nat := 1, 0;
    var i := 0;
    while i < 16
      invariant 0 <= i == 2 * half <= 16
      invariant e == Pow(4, half)
      invariant InMontgomery(key, Value(aR[..]), x, e)
    {
      ghost var y := Value(aR[..]);
      MontMul(key, aaR, aR[..], aR[..]);
      SquareInMontgomery(key, x, e, y, Value(aaR[..]));
      y := Value(aaR[..]);
      MontMul(key, aR, aaR[..], aaR[..]);
      SquareInMontgomery(key, x, 2 * e, y, Value(aR[..]));
      e, half := 4 * e, half + 1;
      i := i + 2;
    }
    assert e == 65536 by {
      assert Pow(4, 4) == 256;
      PowAdd(4, 4, 4);
    }
  }

  /** Convert from big endian byte array to little endian word array. */
  method LoadWords(bytes: array<Byte>, a: array<Word>)
    requires bytes.Length == 4 * a.Length
    modifies a
    ensures Value(a[..]) == OS2IP(bytes[..])
  {
    ghost var b := bytes[..];
    var i, at := 0, bytes.Length;
    while i < a.Length
      invariant 0 <= i <= a.Length && at + 4 * i == bytes.Length
      invariant Value(a[..i]) == OS2IP(b[at..])
    {
      at := at - 4;
      ghost var done := a[..i];
      a[i] := WordOfBytes(bytes[at..at + 4]);
      assert bytes[at..at + 4] == b[at..at + 4];
      assert a[..i + 1] == done + [a[i]];
      OneMoreWord(b, at, done);
      i := i + 1;
    }
    assert a[..] == a[..i] && b == b[0..];
  }

  /** Convert to bigendian byte array. */
  method StoreWords(a: array<Word>, bytes: array<Byte>)
    requires bytes.Length == 4 * a.Length
    modifies bytes
    ensures bytes[..] == I2OSP(Value(a[..]), bytes.Length)
  {
    ghost var words := a[..];
    var i, at := a.Length - 1, 0;
    assert words == words[..i + 1] && bytes[..0] == [];
    ZeroShift(i + 1);
    while i >= 0
      invariant -1 <= i < a.Length && at + 4 * (i + 1) == bytes.Length
      invariant a[..] == words
      invariant Shift(OS2IP(bytes[..at]), i + 1) + Value(words[..i + 1]) == Value(words)
    {
      ghost var done := bytes[..at];
      StoreWord(a[i], bytes, at);
      assert bytes[..at + 4] == done + BytesOfWord(words[i]);
      OneMoreFourBytes(done, BytesOfWord(words[i]), words, i);
      i, at := i - 1, at + 4;
    }
    assert bytes[..] == bytes[..at];
    OctetsDetermineBytes(bytes[..]);
  }

  /** Four bytes of the output, highest first. */
  method StoreWord(tmp: Word, bytes: array<Byte>, at: nat)
    requires at + 4 <= bytes.Length
    modifies bytes
    ensures bytes[..at + 4] == old(bytes[..at]) + BytesOfWord(tmp)
  {
    bytes[at] := tmp / 0x100_0000;
    bytes[at + 1] := tmp / 0x1_0000 % 0x100;
    bytes[at + 2] := tmp / 0x100 % 0x100;
    bytes[at + 3] := tmp % 0x100;
  }

  /** a_r = a * RR / R: the operand times R. */
  lemma EnterMontgomery(key: PublicKey, ar: int, x: int)
    requires key.Valid()
    requires Cong(ar * key.Radix(), x * Value(key.rr), key.Modulus())
    ensures InMontgomery(key, ar, x, 1)
  {
    var n, R := key.Modulus(), key.Radix();
    CongScale(x, Value(key.rr), R * R, n);
    CongTrans(ar * R, x * Value(key.rr), x * (R * R), n);
    MulAssoc(x, R, R);
    CancelRadix(key, ar, x * R);
    assert Pow(x, 1) == x;
  }

  /** Montgomery squaring doubles the exponent. */
  lemma SquareInMontgomery(key: PublicKey, x: int, e: nat, y: int, z: int)
    requires key.Usable()
    requires InMontgomery(key, y, x, e)
    requires Cong(z * key.Radix(), y * y, key.Modulus())
    ensures InMontgomery(key, z, x, 2 * e)
  {
    var n, R, p := key.Modulus(), key.Radix(), Pow(x, e);
    CongMul(y, p * R, y, p * R, n);
    assert (p * R) * (p * R) == ((p * p) * R) * R by {
      MulAssoc(p, R, p * R);
      MulAssoc(R, p, R);
      MulAssoc(p, p, R);
      MulAssoc(p * p, R, R);
      MulAssoc(p, p, R * R);
      assert R * (p * R) == p * (R * R) by { MulAssoc(p, R, R); }
    }
    CongTrans(z * R, y * y, ((p * p) * R) * R, n);
    CancelRadix(key, z, (p * p) * R);
    PowAdd(x, e, e);
  }

  /** The last product brings in the remaining factor and takes R out. */
  lemma LeaveMontgomery(key: PublicKey, x: int, e: nat, y: int, z: int)
    requires key.Usable()
    requires InMontgomery(key, y, x, e)
    requires Cong(z * key.Radix(), y * x, key.Modulus())
    ensures Cong(z, Pow(x, e + 1), key.Modulus())
  {
    var n, R, p := key.Modulus(), key.Radix(), Pow(x, e);
    CongScale(x, y, p * R, n);
    assert x * y == y * x && x * (p * R) == (x * p) * R by { MulAssoc(x, p, R); }
    CongTrans(z * R, y * x, (x * p) * R, n);
    CancelRadix(key, z, x * p);
  }

  /** One conditional subtraction reduces fully, because the modulus has its top bit set. */
  lemma FullyReduced(key: PublicKey, out: nat, aaa: nat, x: nat)
    requires key.Valid()
    requires aaa < key.Radix()
    requires Cong(aaa, Pow(x, 65537), key.Modulus())
    requires out == if aaa >= key.Modulus() then aaa - key.Modulus() else aaa
    ensures out == RSAVP1(key, x)
  {
    var n := key.Modulus();
    ModulusBounds(key);
    CongIntro(aaa - n, aaa, -1, n);
    CongTrans(aaa - n, aaa, Pow(x, 65537), n);
    CongSym(out, Pow(x, 65537), n);
    CongRemainder(Pow(x, 65537), out, n);
  }

  const SHA256_DIGEST_SIZE := 32

  /** Separator and DER prefix of a SHA-256 DigestInfo, as the code stores them. */
  const SHA256_TAIL: seq<Byte> := [
    0x00, 0x30, 0x31, 0x30, 0x0d, 0x06, 0x09, 0x60,
    0x86, 0x48, 0x01, 0x65, 0x03, 0x04, 0x02, 0x01,
    0x05, 0x00, 0x04, 0x20
  ]

  /** The DER encoding of DigestInfo for SHA-256 (section 9.2 of RFC 3447, note 1). */
  function DigestInfo(digest: seq<Byte>): seq<Byte> {
    [0x30, 0x31, 0x30, 0x0d, 0x06, 0x09, 0x60, 0x86, 0x48, 0x01,
     0x65, 0x03, 0x04, 0x02, 0x01, 0x05, 0x00, 0x04, 0x20] + digest
  }

  /** EMSA-PKCS1-v1_5-ENCODE (section 9.2 of RFC 3447): 00 01 FF..FF 00 T, emLen octets in all. */
  function EmsaPkcs1(digest: seq<Byte>, emLen: nat): (em: seq<Byte>)
    requires emLen >= |DigestInfo(digest)| + 11
    ensures |em| == emLen
  {
    var T := DigestInfo(digest);
    var PS := seq(emLen - |T| - 3, _ => 0xff);
    [0x00, 0x01] + PS + [0x00] + T
  }

  /** A block starts 00 01, then 0xff bytes up to the last 52, then the stored tail. */
  predicate HasPadding(sig: seq<Byte>)
    requires |sig| >= 64
  {
    && sig[0] == 0x00 && sig[1] == 0x01
    && (forall k :: 2 <= k < |sig| - 52 ==> sig[k] == 0xff)
    && sig[|sig| - 52..|sig| - SHA256_DIGEST_SIZE] == SHA256_TAIL
  }

  /** Padding and digest in place is the encoded message. */
  lemma PaddingIsEmsa(em: seq<Byte>, digest: seq<Byte>)
    requires |em| >= 64 && |digest| == SHA256_DIGEST_SIZE
    ensures HasPadding(em) && em[|em| - SHA256_DIGEST_SIZE..] == digest <==> em == EmsaPkcs1(digest, |em|)
  {
    var len := |em|;
    var ff: seq<Byte> := seq(len - 54, _ => 0xff);
    assert EmsaPkcs1(digest, len) == [0x00, 0x01] + ff + SHA256_TAIL + digest;
    var head, tail, rest := em[..len - 52], em[len - 52..len - 32], em[len - 32..];
    assert em == head + tail + rest;
    assert HasPadding(em) <==> head == [0x00, 0x01] + ff && tail == SHA256_TAIL;
    assert em == [0x00, 0x01] + ff + SHA256_TAIL + digest ==> tail == SHA256_TAIL && rest == digest;
  }

  /** Check PKCS#1 padding bytes; true if something is wrong. */
  method CheckPadding(sig: seq<Byte>) returns (bad: bool)
    requires |sig| >= 64
    ensures bad == !HasPadding(sig)
  {
    var padSize := |sig| - SHA256_DIGEST_SIZE;
    var result: nat := Or(Or(0, Xor(sig[0], 0x00)), Xor(sig[1], 0x01));
    XorIsZero(sig[0], 0x00);
    XorIsZero(sig[1], 0x01);
    OrIsZero(Xor(sig[0], 0x00), Xor(sig[1], 0x01));
    var i := 0;
    while i < padSize - |SHA256_TAIL| - 2
      invariant 0 <= i <= padSize - |SHA256_TAIL| - 2
      invariant result == 0 <==> sig[0] == 0x00 && sig[1] == 0x01 && forall k :: 2 <= k < i + 2 ==> sig[k] == 0xff
    {
      XorIsZero(sig[i + 2], 0xff);
      OrIsZero(result, Xor(sig[i + 2], 0xff));
      result := Or(result, Xor(sig[i + 2], 0xff));
      i := i + 1;
    }
    return result != 0 || sig[i + 2..padSize] != SHA256_TAIL;
  }

  /** Verify a SHA256WithRSA PKCS#1 v1.5 signature against an expected SHA-256 hash. */
  method RsaVerify(key: PublicKey, signature: seq<Byte>, sha: seq<Byte>,
                   a: array<Word>, aR: array<Word>, aaR: array<Word>) returns (ok: bool)
    requires key.Valid() && key.Size() >= 16
    requires |signature| == 4 * key.Size() && |sha| == SHA256_DIGEST_SIZE
    requires a.Length == aR.Length == aaR.Length == key.Size()
    requires a != aR && a != aaR && aR != aaR
    modifies a, aR, aaR
    ensures ok <==> I2OSP(RSAVP1(key, OS2IP(signature)), |signature|)
                    == EmsaPkcs1(sha, |signature|)
  {
    var buf := new Byte[|signature|](i requires 0 <= i < |signature| => signature[i]);
    assert buf[..] == signature;
    ModPowF4(key, buf, a, aR, aaR);
    var padSize := buf.Length - SHA256_DIGEST_SIZE;
    PaddingIsEmsa(buf[..], sha);
    var bad := CheckPadding(buf[..]);
    if bad {
      return false;
    }
    if buf[padSize..] != sha {
      return false;
    }
    return true;
  }

  /** A block of the right length is the encoded value exactly when it is the encoded integer (RFC 3447, 8.2.2). */
  lemma VerifiedMeansEqualIntegers(m: nat, em: seq<Byte>)
    requires m < Pow(256, |em|)
    ensures I2OSP(m, |em|) == em <==> m == OS2IP(em)
  {
    OctetsDetermineBytes(em);
    BytesDetermineInteger(m, |em|);
  }
}
