/** Powers and congruences of unbounded integers, as the Montgomery arithmetic needs them. */
module ModArith {

  function Pow(b: int, e: nat): int {
    if e == 0 then 1 else b * Pow(b, e - 1)
  }

  /** Multiplication under a name, so that quantifiers over a factor have a trigger. */
  function Mul(k: int, n: int): int { k * n }

  lemma MulMono(x: int, y: int, p: int)
    requires x <= y && p >= 0
    ensures x * p <= y * p
  {
  }

  lemma MulDist(x: int, y: int, p: int)
    ensures (x + y) * p == x * p + y * p
  {
  }

  lemma DistMul(m: int, x: int, y: int)
    ensures m * (x + y) == m * x + m * y
  {
  }

  lemma MulAssoc(x: int, y: int, z: int)
    ensures (x * y) * z == x * (y * z)
  {
  }

  /** x and y differ by a multiple of n. */
  ghost predicate Cong(x: int, y: int, n: int) {
    exists k :: x - y == Mul(k, n)
  }

  lemma CongIntro(x: int, y: int, k: int, n: int)
    requires x == y + k * n
    ensures Cong(x, y, n)
  {
    assert x - y == Mul(k, n);
  }

  lemma CongRefl(x: int, n: int)
    ensures Cong(x, x, n)
  {
    CongIntro(x, x, 0, n);
  }

  lemma CongSym(x: int, y: int, n: int)
    requires Cong(x, y, n)
    ensures Cong(y, x, n)
  {
    var k :| x - y == Mul(k, n);
    CongIntro(y, x, -k, n);
  }

  lemma CongTrans(x: int, y: int, z: int, n: int)
    requires Cong(x, y, n) && Cong(y, z, n)
    ensures Cong(x, z, n)
  {
    var k :| x - y == Mul(k, n);
    var l :| y - z == Mul(l, n);
    assert k * n + l * n == (k + l) * n;
    CongIntro(x, z, k + l, n);
  }

  lemma CongAdd(x: int, y: int, u: int, v: int, n: int)
    requires Cong(x, y, n) && Cong(u, v, n)
    ensures Cong(x + u, y + v, n)
  {
    var k :| x - y == Mul(k, n);
    var l :| u - v == Mul(l, n);
    assert k * n + l * n == (k + l) * n;
    CongIntro(x + u, y + v, k + l, n);
  }

  lemma CongScale(m: int, x: int, y: int, n: int)
    requires Cong(x, y, n)
    ensures Cong(m * x, m * y, n)
  {
    var k :| x - y == Mul(k, n);
    calc {
      m * x;
      m * (y + k * n);
      m * y + m * (k * n);
      m * y + (m * k) * n;
    }
    CongIntro(m * x, m * y, m * k, n);
  }

  lemma CongMul(x: int, y: int, u: int, v: int, n: int)
    requires Cong(x, y, n) && Cong(u, v, n)
    ensures Cong(x * u, y * v, n)
  {
    CongScale(u, x, y, n);
    CongScale(y, u, v, n);
    assert u * x == x * u && u * y == y * u;
    CongTrans(x * u, y * u, y * v, n);
  }

  /** A number congruent to a residue has that residue as its remainder. */
  lemma CongRemainder(x: int, r: int, n: int)
    requires 0 <= r < n && Cong(x, r, n)
    ensures x % n == r
  {
    var k :| x - r == Mul(k, n);
    var q, s := x / n, x % n;
    assert x == q * n + s;
    assert (k - q) * n == s - r by { assert k * n - q * n == (k - q) * n; }
    assert k - q >= 1 ==> (k - q) * n >= n;
    assert k - q <= -1 ==> (k - q) * n <= -n;
  }

  /** Doubling can be cancelled modulo an odd number. */
  lemma CancelTwo(x: int, y: int, n: int)
    requires n % 2 == 1 && Cong(2 * x, 2 * y, n)
    ensures Cong(x, y, n)
  {
    var k :| 2 * x - 2 * y == Mul(k, n);
    var m := n / 2;
    assert k * n == k * (2 * m + 1) == 2 * (k * m) + k;
    var h := k / 2;
    assert k == 2 * h;
    assert k * n == 2 * (h * n);
    CongIntro(x, y, h, n);
  }

  lemma {:induction false} CancelPow2(e: nat, x: int, y: int, n: int)
    requires n % 2 == 1 && Cong(Pow(2, e) * x, Pow(2, e) * y, n)
    ensures Cong(x, y, n)
  {
    if e > 0 {
      assert Pow(2, e) * x == 2 * (Pow(2, e - 1) * x);
      assert Pow(2, e) * y == 2 * (Pow(2, e - 1) * y);
      CancelTwo(Pow(2, e - 1) * x, Pow(2, e - 1) * y, n);
      CancelPow2(e - 1, x, y, n);
    }
  }

  lemma {:induction false} PowAdd(b: int, e: nat, f: nat)
    ensures Pow(b, e + f) == Pow(b, e) * Pow(b, f)
  {
    if e > 0 {
      PowAdd(b, e - 1, f);
      assert b * (Pow(b, e - 1) * Pow(b, f)) == (b * Pow(b, e - 1)) * Pow(b, f);
    }
  }

  lemma {:induction false} PowPow(b: int, e: nat, f: nat)
    ensures Pow(Pow(b, e), f) == Pow(b, e * f)
  {
    if f > 0 {
      PowPow(b, e, f - 1);
      assert e * f == e + e * (f - 1);
      PowAdd(b, e, e * (f - 1));
    } else {
      assert e * f == 0;
    }
  }

  lemma {:induction false} PowPositive(b: int, e: nat)
    requires b > 0
    ensures Pow(b, e) > 0
  {
    if e > 0 { PowPositive(b, e - 1); }
  }
}
