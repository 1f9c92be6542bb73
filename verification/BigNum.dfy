/** Little-endian word strings and big-endian byte strings as numbers. */
module BigNum {
  import opened ModArith
  import opened Words

  /** The 64-bit accumulators: a value that does not fit is a verification error, not a wrap-around. */
  type DoubleWord = x: int | 0 <= x < 0x1_0000_0000_0000_0000
  type SignedDoubleWord = x: int | -0x8000_0000_0000_0000 <= x < 0x8000_0000_0000_0000

  /** x * 2^(32 * i), built by repeated shifts so that reasoning about it stays linear. */
  function Shift(x: int, i: nat): int {
    if i == 0 then x else BASE * Shift(x, i - 1)
  }

  lemma {:induction false} ShiftAdd(x: int, y: int, i: nat)
    ensures Shift(x + y, i) == Shift(x, i) + Shift(y, i)
  {
    if i > 0 { ShiftAdd(x, y, i - 1); }
  }

  lemma {:induction false} ShiftWord(x: int, i: nat)
    ensures Shift(BASE * x, i) == Shift(x, i + 1) == BASE * Shift(x, i)
  {
    if i > 0 { ShiftWord(x, i - 1); }
  }

  lemma {:induction false} ShiftIsMultiply(x: int, i: nat)
    ensures Shift(x, i) == x * Pow(BASE, i)
  {
    if i > 0 {
      ShiftIsMultiply(x, i - 1);
      MulAssoc(x, BASE, Pow(BASE, i - 1));
    }
  }

  lemma ShiftScale(m: int, x: int, i: nat)
    ensures Shift(m * x, i) == m * Shift(x, i)
  {
    ShiftIsMultiply(m * x, i);
    ShiftIsMultiply(x, i);
    MulAssoc(m, x, Pow(BASE, i));
  }

  lemma {:induction false} ShiftMono(x: int, y: int, i: nat)
    requires x <= y
    ensures Shift(x, i) <= Shift(y, i)
  {
    if i > 0 { ShiftMono(x, y, i - 1); }
  }

  /** The number a little-endian word string stands for. */
  function Value(s: seq<Word>): nat {
    if s == [] then 0
    else
      ZeroShift(|s| - 1);
      ShiftMono(0, s[|s| - 1], |s| - 1);
      Value(s[..|s| - 1]) + Shift(s[|s| - 1], |s| - 1)
  }

  lemma ValueSnoc(s: seq<Word>, i: nat)
    requires i < |s|
    ensures Value(s[..i + 1]) == Value(s[..i]) + Shift(s[i], i)
  {
    assert s[..i + 1][..i] == s[..i];
  }

  lemma {:induction false} ZeroShift(i: nat)
    ensures Shift(0, i) == 0
  {
    if i > 0 { ZeroShift(i - 1); }
  }

  lemma {:induction false} ValueBound(s: seq<Word>)
    ensures Value(s) < Shift(1, |s|)
  {
    if s != [] {
      var k := |s| - 1;
      ValueBound(s[..k]);
      ZeroShift(k);
      ShiftMono(0, s[k], k);
      ShiftMono(s[k], BASE - 1, k);
      ShiftAdd(BASE - 1, 1, k);
      ShiftWord(1, k);
    }
  }

  /** The octet-string-to-integer primitive OS2IP (section 4.2 of RFC 3447). */
  function OS2IP(s: seq<Byte>): nat {
    if s == [] then 0 else OS2IP(s[..|s| - 1]) * 256 + s[|s| - 1]
  }

  /** The integer-to-octet-string primitive I2OSP (section 4.1 of RFC 3447), for an integer that fits. */
  function I2OSP(x: nat, len: nat): (s: seq<Byte>)
    ensures |s| == len
  {
    if len == 0 then [] else I2OSP(x / 256, len - 1) + [x % 256]
  }

  lemma {:induction false} OctetsDetermineBytes(s: seq<Byte>)
    ensures I2OSP(OS2IP(s), |s|) == s
  {
    if s != [] {
      var t := s[..|s| - 1];
      OctetsDetermineBytes(t);
      assert OS2IP(s) / 256 == OS2IP(t) && OS2IP(s) % 256 == s[|s| - 1];
      assert s == t + [s[|s| - 1]];
    }
  }

  lemma {:induction false} BytesDetermineInteger(x: nat, len: nat)
    requires x < Pow(256, len)
    ensures OS2IP(I2OSP(x, len)) == x
  {
    if len > 0 {
      assert x / 256 < Pow(256, len - 1);
      BytesDetermineInteger(x / 256, len - 1);
      assert I2OSP(x, len)[..len - 1] == I2OSP(x / 256, len - 1);
    }
  }

  lemma {:induction false} OS2IPConcat(s: seq<Byte>, t: seq<Byte>)
    ensures OS2IP(s + t) == OS2IP(s) * Pow(256, |t|) + OS2IP(t)
  {
    if t == [] {
      assert s + t == s;
    } else {
      var u := t[..|t| - 1];
      OS2IPConcat(s, u);
      assert (s + t)[..|s + t| - 1] == s + u;
      assert OS2IP(s) * Pow(256, |u|) * 256 == OS2IP(s) * (256 * Pow(256, |u|));
    }
  }

  /** The word that four bytes spell, highest first. */
  function WordOfBytes(b: seq<Byte>): Word
    requires |b| == 4
  {
    0x100_0000 * (b[0] as int) + 0x1_0000 * (b[1] as int) + 0x100 * (b[2] as int) + b[3] as int
  }

  lemma WordIsOS2IP(b: seq<Byte>)
    requires |b| == 4
    ensures OS2IP(b) == WordOfBytes(b)
  {
    assert b[..3][..2] == b[..2] && b[..2][..1] == b[..1] && b[..1][..0] == [];
    assert OS2IP(b[..1]) == b[0];
    assert OS2IP(b[..2]) == 256 * (b[0] as int) + b[1] as int;
  }

  /** The four bytes of a word, highest first. */
  function BytesOfWord(w: Word): (b: seq<Byte>)
    ensures |b| == 4 && WordOfBytes(b) == w
  {
    assert w / 0x1_0000 / 0x100 == w / 0x100_0000 && w / 0x100 / 0x100 == w / 0x1_0000;
    [w / 0x100_0000, w / 0x1_0000 % 0x100, w / 0x100 % 0x100, w % 0x100]
  }

  /** The four bytes before those already loaded extend the word string at its high end. */
  lemma OneMoreWord(b: seq<Byte>, at: nat, done: seq<Word>)
    requires at + 4 + 4 * |done| == |b|
    requires Value(done) == OS2IP(b[at + 4..])
    ensures Value(done + [WordOfBytes(b[at..at + 4])]) == OS2IP(b[at..])
  {
    var w: int := WordOfBytes(b[at..at + 4]);
    WordIsOS2IP(b[at..at + 4]);
    assert b[at..] == b[at..at + 4] + b[at + 4..];
    OS2IPConcat(b[at..at + 4], b[at + 4..]);
    RadixInBytes(|done|);
    ShiftScale(w, 1, |done|);
    assert (done + [WordOfBytes(b[at..at + 4])])[..|done|] == done;
  }

  /** Writing the top word behind the bytes already written takes it off the word string. */
  lemma OneMoreFourBytes(done: seq<Byte>, four: seq<Byte>, a: seq<Word>, i: nat)
    requires i < |a| && |four| == 4 && WordOfBytes(four) == a[i]
    ensures Shift(OS2IP(done + four), i) + Value(a[..i]) == Shift(OS2IP(done), i + 1) + Value(a[..i + 1])
  {
    var w: int := a[i];
    OS2IPConcat(done, four);
    WordIsOS2IP(four);
    assert Pow(256, 4) == BASE;
    ShiftAdd(BASE * OS2IP(done), w, i);
    ShiftWord(OS2IP(done), i);
    ValueSnoc(a, i);
  }

  lemma {:induction false} RadixInBits(i: nat)
    ensures Shift(1, i) == Pow(2, 32 * i)
  {
    if i > 0 {
      RadixInBits(i - 1);
      PowAdd(2, 16, 32 * (i - 1));
      PowAdd(2, 16, 16 + 32 * (i - 1));
      PowAdd(2, 8, 8);
      assert Pow(2, 4) == 16 && Pow(2, 8) == 16 * Pow(2, 4) == 256;
    }
  }

  lemma {:induction false} RadixInBytes(i: nat)
    ensures Shift(1, i) == Pow(256, 4 * i)
  {
    if i > 0 {
      RadixInBytes(i - 1);
      PowAdd(256, 4, 4 * (i - 1));
      assert Pow(256, 4) == BASE;
    }
  }
}
