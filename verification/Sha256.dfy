/** SHA-256 by sections 5 and 6.2 of FIPS 180-2, as functions on byte strings. */
module Sha256Spec {
  import opened ModArith
  import opened BigNum
  import opened Bits
  import opened Words

  /** Initial hash value (section 5.3.2). */
  const H0: seq<Word> := [
    0x6a09e667, 0xbb67ae85, 0x3c6ef372, 0xa54ff53a, 0x510e527f, 0x9b05688c, 0x1f83d9ab, 0x5be0cd19]

  /** Round constants (section 4.2.2). */
  const K: seq<Word> :=
    [0x428a2f98, 0x71374491, 0xb5c0fbcf, 0xe9b5dba5, 0x3956c25b, 0x59f111f1, 0x923f82a4, 0xab1c5ed5] +
    [0xd807aa98, 0x12835b01, 0x243185be, 0x550c7dc3, 0x72be5d74, 0x80deb1fe, 0x9bdc06a7, 0xc19bf174] +
    [0xe49b69c1, 0xefbe4786, 0x0fc19dc6, 0x240ca1cc, 0x2de92c6f, 0x4a7484aa, 0x5cb0a9dc, 0x76f988da] +
    [0x983e5152, 0xa831c66d, 0xb00327c8, 0xbf597fc7, 0xc6e00bf3, 0xd5a79147, 0x06ca6351, 0x14292967] +
    [0x27b70a85, 0x2e1b2138, 0x4d2c6dfc, 0x53380d13, 0x650a7354, 0x766a0abb, 0x81c2c92e, 0x92722c85] +
    [0xa2bfe8a1, 0xa81a664b, 0xc24b8b70, 0xc76c51a3, 0xd192e819, 0xd6990624, 0xf40e3585, 0x106aa070] +
    [0x19a4c116, 0x1e376c08, 0x2748774c, 0x34b0bcb5, 0x391c0cb3, 0x4ed8aa4a, 0x5b9cca4f, 0x682e6ff3] +
    [0x748f82ee, 0x78a5636f, 0x84c87814, 0x8cc70208, 0x90befffa, 0xa4506ceb, 0xbef9a3f7, 0xc67178f2]

  // Addition of words is modulo 2^32 (section 3.2).

  function Not(x: Word): Word { BASE - 1 - x }
  function SHR(x: Word, n: nat): Word { if n == 0 then x else SHR(x / 2, n - 1) }
  function SHL(x: Word, n: nat): Word
    decreases n, x
  {
    if n == 0 then x else SHL(2 * x % BASE, n - 1)
  }
  function ROTR(x: Word, n: nat): nat
    requires n <= 32
  {
    Or(SHR(x, n), SHL(x, 32 - n))
  }
  function Ch(x: Word, y: Word, z: Word): nat { Xor(And(x, y), And(Not(x), z)) }
  function Maj(x: Word, y: Word, z: Word): nat { Xor(Xor(And(x, y), And(x, z)), And(y, z)) }
  function BigSigma0(x: Word): nat { Xor(Xor(ROTR(x, 2), ROTR(x, 13)), ROTR(x, 22)) }
  function BigSigma1(x: Word): nat { Xor(Xor(ROTR(x, 6), ROTR(x, 11)), ROTR(x, 25)) }
  function SmallSigma0(x: Word): nat { Xor(Xor(ROTR(x, 7), ROTR(x, 18)), SHR(x, 3)) }
  function SmallSigma1(x: Word): nat { Xor(Xor(ROTR(x, 17), ROTR(x, 19)), SHR(x, 10)) }

  type Block = b: seq<Byte> | |b| == 64 witness seq(64, _ => 0)

  function Extend(w2: Word, w7: Word, w15: Word, w16: Word): Word {
    (SmallSigma1(w2) + w7 + SmallSigma0(w15) + w16) % BASE
  }

  /** The message schedule (section 6.2.2, step 1). */
  ghost function W(block: Block, t: nat): Word {
    if t < 16 then WordOfBytes(block[4 * t..4 * t + 4])
    else Extend(W(block, t - 2), W(block, t - 7), W(block, t - 15), W(block, t - 16))
  }

  /** The eight working variables. */
  datatype Vars = Vars(a: Word, b: Word, c: Word, d: Word, e: Word, f: Word, g: Word, h: Word)

  function T1(e: Word, f: Word, g: Word, h: Word, k: Word, w: Word): Word {
    (h + BigSigma1(e) + Ch(e, f, g) + k + w) % BASE
  }
  function T2(a: Word, b: Word, c: Word): Word { (BigSigma0(a) + Maj(a, b, c)) % BASE }

  /** One round (section 6.2.2, step 3). */
  function Round(v: Vars, k: Word, w: Word): Vars {
    ShiftIn(v, T1(v.e, v.f, v.g, v.h, k, w), T2(v.a, v.b, v.c))
  }

  function ShiftIn(v: Vars, t1: Word, t2: Word): Vars {
    Vars((t1 + t2) % BASE, v.a, v.b, v.c, (v.d + t1) % BASE, v.e, v.f, v.g)
  }

  ghost function Rounds(v: Vars, block: Block, t: nat): Vars
    requires t <= 64
  {
    if t == 0 then v else Round(Rounds(v, block, t - 1), K[t - 1], W(block, t - 1))
  }

  type Hash = h: seq<Word> | |h| == 8 witness H0

  function ToVars(h: Hash): Vars { Vars(h[0], h[1], h[2], h[3], h[4], h[5], h[6], h[7]) }

  /** Add the working variables to the hash value (section 6.2.2, step 4). */
  function AddVars(h: Hash, v: Vars): Hash {
    [(h[0] + v.a) % BASE, (h[1] + v.b) % BASE, (h[2] + v.c) % BASE, (h[3] + v.d) % BASE,
     (h[4] + v.e) % BASE, (h[5] + v.f) % BASE, (h[6] + v.g) % BASE, (h[7] + v.h) % BASE]
  }

  ghost function Compress(h: Hash, block: Block): Hash { AddVars(h, Rounds(ToVars(h), block, |block|)) }

  /** A whole number of blocks. */
  predicate Whole(s: seq<Byte>) {
    s == [] || (|s| >= 64 && Whole(s[..|s| - 64]))
  }

  /** The block recurrence over a whole number of blocks, for a compression function. */
  ghost function Fold<T>(f: (T, Block) -> T, h: T, s: seq<Byte>): T
    requires Whole(s)
  {
    if s == [] then h else f(Fold(f, h, s[..|s| - 64]), s[|s| - 64..])
  }

  lemma {:induction false} WholeByLength(s: seq<Byte>, n: nat)
    requires |s| == 64 * n
    ensures Whole(s)
  {
    if n > 0 { WholeByLength(s[..|s| - 64], n - 1); }
  }

  lemma {:induction false} FoldConcat<T>(f: (T, Block) -> T, h: T, s: seq<Byte>, u: seq<Byte>)
    requires Whole(s) && Whole(u)
    ensures Whole(s + u) && Fold(f, h, s + u) == Fold(f, Fold(f, h, s), u)
  {
    if u == [] {
      assert s + u == s;
    } else {
      var n := |s + u| - 64;
      assert (s + u)[..n] == s + u[..|u| - 64] && (s + u)[n..] == u[|u| - 64..];
      FoldConcat(f, h, s, u[..|u| - 64]);
    }
  }

  /** The hash value after a whole number of blocks. */
  ghost function Absorbed(h: Hash, s: seq<Byte>): Hash
    requires Whole(s)
  {
    Fold<Hash>(Compress, h, s)
  }

  function Zeros(n: nat): (b: seq<Byte>)
    ensures |b| == n && forall k :: 0 <= k < n ==> b[k] == 0
  {
    seq(n, _ => 0)
  }

  /** Bytes of zeros that bring message, 0x80 and an eight-byte length to a multiple of 64. */
  function ZeroCount(len: nat): nat { (55 - len) % 64 }

  /** Padding (section 5.1.1): a one bit, the fewest zeros, and the length in bits in 64 bits. */
  function Padding(len: nat): seq<Byte> {
    [0x80] + Zeros(ZeroCount(len)) + I2OSP(8 * len, 8)
  }

  lemma PaddedIsWhole(m: seq<Byte>)
    ensures Whole(m + Padding(|m|))
  {
    var q := (55 - |m|) / 64;
    assert 55 - |m| == 64 * q + ZeroCount(|m|);
    WholeByLength(m + Padding(|m|), 1 - q);
  }

  /** Padding whose length field holds only the low 32 bits of the length in bits. */
  function ShortPadding(len: nat): (b: seq<Byte>) {
    [0x80] + Zeros(ZeroCount(len) + 4) + BytesOfWord(8 * len % BASE)
  }

  lemma ShortPaddingIsWhole(m: seq<Byte>)
    ensures Whole(m + ShortPadding(|m|))
  {
    var q := (55 - |m|) / 64;
    assert 55 - |m| == 64 * q + ZeroCount(|m|);
    WholeByLength(m + ShortPadding(|m|), 1 - q);
  }

  lemma OctetsOfWord(x: Word)
    ensures I2OSP(x, 4) == BytesOfWord(x)
  {
    WordIsOS2IP(BytesOfWord(x));
    OctetsDetermineBytes(BytesOfWord(x));
  }

  lemma {:induction false} OctetsSplit(n: nat, count: nat, p: nat)
    requires p == Pow(256, count)
    ensures p > 0 && I2OSP(n, 4 + count) == I2OSP(n / p, 4) + I2OSP(n % p, count)
  {
    if count == 0 {
      assert n % 1 == 0 && n / 1 == n;
    } else {
      var q := Pow(256, count - 1);
      OctetsSplit(n / 256, count - 1, q);
      SplitRemainder(n, q, p);
      var low := n % p;
      LastDigit(n % 256, n / 256 % q);
      assert I2OSP(low, count) == I2OSP(n / 256 % q, count - 1) + [n % 256];
      assert I2OSP(n, 4 + count) == I2OSP(n / 256, 3 + count) + [n % 256];
    }
  }

  lemma LastDigit(d: nat, n: nat)
    requires d < 256
    ensures (d + 256 * n) % 256 == d && (d + 256 * n) / 256 == n
  {
  }

  lemma SplitRemainder(n: nat, q: nat, p: nat)
    requires q > 0 && p == 256 * q
    ensures n % p == n % 256 + 256 * (n / 256 % q) && n / p == n / 256 / q
  {
    var a, b := n / 256 / q, n / 256 % q;
    assert n / 256 == a * q + b;
    assert n == a * (256 * q) + (n % 256 + 256 * b) by { assert a * (256 * q) == 256 * (a * q); }
    Quotient(n, 256 * q, a, n % 256 + 256 * b);
  }

  lemma Quotient(n: nat, d: nat, a: nat, r: nat)
    requires n == a * d + r && r < d
    ensures n / d == a && n % d == r
  {
    CongIntro(n, r, a, d);
    CongRemainder(n, r, d);
    var b := n / d;
    assert n == b * d + n % d;
    if a < b { MulMono(a + 1, b, d); }
    if b < a { MulMono(b + 1, a, d); }
  }

  /** The short length field is the standard's exactly for messages below 2^29 bytes. */
  lemma ShortPaddingIsStandardBelow512MiB(len: nat)
    requires len < 0x2000_0000_0000_0000
    ensures ShortPadding(len) == Padding(len) <==> len < 0x2000_0000
  {
    var n := 8 * len;
    var low, high := n % BASE, n / BASE;
    assert Pow(256, 4) == BASE by { PowUnrolled(); }
    OctetsSplit(n, 4, BASE);
    OctetsOfWord(low);
    OctetsOfWord(high);
    var z := ZeroCount(len);
    assert Padding(len) == [0x80] + Zeros(z) + BytesOfWord(high) + BytesOfWord(low);
    assert ShortPadding(len) == [0x80] + Zeros(z) + Zeros(4) + BytesOfWord(low);
    if high == 0 {
      assert BytesOfWord(0) == Zeros(4);
    } else {
      var k := NonZeroByte(high);
      assert ShortPadding(len)[1 + z + k] == 0 && Padding(len)[1 + z + k] == BytesOfWord(high)[k];
    }
  }

  lemma NonZeroByte(x: Word) returns (k: nat)
    requires x != 0
    ensures k < 4 && BytesOfWord(x)[k] != 0
  {
    var b := BytesOfWord(x);
    k := if b[0] != 0 then 0 else if b[1] != 0 then 1 else if b[2] != 0 then 2 else 3;
  }

  lemma PowUnrolled()
    ensures Pow(256, 4) == BASE
  {
    assert Pow(256, 2) == 0x1_0000 && Pow(256, 3) == 0x100_0000;
  }

  lemma {:induction false} WholeLength(s: seq<Byte>)
    requires Whole(s)
    ensures |s| % 64 == 0
  {
    if s != [] { WholeLength(s[..|s| - 64]); }
  }

  /** The hash value as bytes. */
  function Digest(h: seq<Word>): (b: seq<Byte>)
    ensures |b| == 4 * |h|
  {
    if h == [] then [] else Digest(h[..|h| - 1]) + BytesOfWord(h[|h| - 1])
  }

  /** SHA-256 of a message. */
  ghost function Sha256(m: seq<Byte>): seq<Byte> {
    PaddedIsWhole(m);
    Digest(Absorbed(H0, m + Padding(|m|)))
  }

  /** The same with the length field cut to 32 bits. */
  ghost function Sha256ShortLength(m: seq<Byte>): seq<Byte> {
    ShortPaddingIsWhole(m);
    Digest(Absorbed(H0, m + ShortPadding(|m|)))
  }
}

/** Streaming SHA-256 (common/sha256.c). */
module Sha256 {
  import opened BigNum
  import opened Sha256Spec
  import opened Words

  const SHA256_BLOCK_SIZE := 64
  const SHA256_DIGEST_SIZE := 32

  class Context {
    const h: array<Word>
    const block: array<Byte>
    const buf: array<Byte>
    var totLen: Word
    var len: nat
    ghost var message: seq<Byte>
    ghost var absorbed: nat

    ghost predicate Shaped() {
      h.Length == 8 && block.Length == 2 * SHA256_BLOCK_SIZE && buf.Length == SHA256_DIGEST_SIZE && block != buf
    }

    /** h has absorbed the complete blocks of the message so far, and block holds the rest. */
    ghost predicate Valid()
      reads this, h, block
    {
      && Shaped()
      && len < SHA256_BLOCK_SIZE && absorbed + len == |message| && totLen == absorbed % BASE
      && Whole(message[..absorbed]) && h[..] == Absorbed(H0, message[..absorbed])
      && block[..len] == message[absorbed..]
    }

    constructor Init()
      ensures Valid() && message == [] && fresh(h) && fresh(block) && fresh(buf)
    {
      h := new Word[8](i requires 0 <= i < 8 => H0[i]);
      block := new Byte[2 * SHA256_BLOCK_SIZE];
      buf := new Byte[SHA256_DIGEST_SIZE];
      totLen, len := 0, 0;
      message, absorbed := [], 0;
      new;
      assert h[..] == H0;
    }

    /** Absorb a number of blocks. */
    method Transform(data: seq<Byte>, blockNb: nat)
      requires Shaped() && |data| == SHA256_BLOCK_SIZE * blockNb
      modifies h
      ensures Whole(data) && h[..] == Absorbed(old(h[..]), data)
    {
      ghost var h0: Hash := h[..];
      var i, at := 0, 0;
      ghost var done: seq<Byte> := [];
      while i < blockNb
        invariant 0 <= i <= blockNb && at == SHA256_BLOCK_SIZE * i && done == data[..at]
        invariant Whole(done) && h[..] == Absorbed(h0, done)
      {
        done := NextBlock(data[at..at + SHA256_BLOCK_SIZE], h0, done);
        i, at := i + 1, at + SHA256_BLOCK_SIZE;
      }
      assert done == data;
    }

    method NextBlock(subBlock: Block, ghost h0: Hash, ghost before: seq<Byte>) returns (ghost done: seq<Byte>)
      requires Shaped() && Whole(before) && h[..] == Absorbed(h0, before)
      modifies h
      ensures done == before + subBlock && Whole(done) && h[..] == Absorbed(h0, done)
    {
      done := before + subBlock;
      OneMoreBlock(h0, before, subBlock);
      TransformBlock(subBlock);
    }

    /** Absorb one block. */
    method TransformBlock(subBlock: Block)
      requires Shaped()
      modifies h
      ensures h[..] == Compress(old(h[..]), subBlock)
    {
      ghost var before: Hash := h[..];
      var w := Schedule(subBlock);
      var wv := new Word[8](j requires 0 <= j < 8 && Shaped() reads h => h[j]);
      assert wv[..] == before;
      RunRounds(wv, w, ToVars(before), subBlock);
      AddBack(wv, before);
    }

    method AddBack(wv: array<Word>, ghost before: Hash)
      requires Shaped() && wv.Length == 8 && wv != h && h[..] == before
      modifies h
      ensures h[..] == AddVars(before, VarsOf(wv))
    {
      var j := 0;
      while j < 8
        invariant 0 <= j <= 8
        invariant forall k :: 0 <= k < j ==> h[k] == AddVars(before, VarsOf(wv))[k]
        invariant forall k :: j <= k < 8 ==> h[k] == before[k]
      {
        h[j] := (h[j] + wv[j]) % BASE;
        j := j + 1;
      }
    }

    /**
     * The buffered bytes and the new data, whole blocks absorbed and the rest buffered. When the 32-bit sum of their
     * lengths wraps, the data are ignored and the context forgets some of what it had buffered.
     */
    method Update(data: seq<Byte>)
      requires Valid() && |data| < BASE
      modifies this, h, block
      ensures Valid()
      ensures message == if old(len) + |data| < BASE then old(message) + data
                         else old(message)[..|old(message)| - (BASE - |data|)]
    {
      var tmpLen := SHA256_BLOCK_SIZE - len;
      var remLen := if |data| < tmpLen then |data| else tmpLen;
      CopyIn(len, data[..remLen]);
      assert block[..len] == block[..len + remLen][..len];
      assert remLen == |data| ==> data[..remLen] == data;
      var newLen := (len + |data|) % BASE;
      WrapsOnce(len, |data|, newLen);
      if newLen < SHA256_BLOCK_SIZE {
        KeepBuffered(data, newLen);
      } else {
        Flush(data, remLen);
      }
    }

    /** The part of an update that leaves the new length in the buffer. */
    method KeepBuffered(data: seq<Byte>, newLen: nat)
      requires Shaped() && len < SHA256_BLOCK_SIZE && |message| == absorbed + len && totLen == absorbed % BASE
      requires Whole(message[..absorbed]) && h[..] == Absorbed(H0, message[..absorbed])
      requires |data| < BASE && newLen < SHA256_BLOCK_SIZE && block[..len] == message[absorbed..]
      requires newLen == if len + |data| < BASE then len + |data| else len + |data| - BASE
      requires len + |data| < BASE ==> block[..newLen] == message[absorbed..] + data
      modifies this`len, this`message
      ensures Valid()
      ensures message == if old(len) + |data| < BASE then old(message) + data
                         else old(message)[..|old(message)| - (BASE - |data|)]
    {
      if len + |data| < BASE {
        AppendToTail(message, absorbed, data);
        message := message + data;
      } else {
        KeepPart(message, absorbed, absorbed + newLen);
        assert block[..newLen] == block[..len][..newLen];
        message := message[..absorbed + newLen];
      }
      len := newLen;
    }

    /** The part of an update after the buffered block is full. */
    method Flush(data: seq<Byte>, room: nat)
      requires Shaped() && room <= |data| && |message| == absorbed + len && len + room == SHA256_BLOCK_SIZE
      requires totLen == absorbed % BASE
      requires Whole(message[..absorbed]) && h[..] == Absorbed(H0, message[..absorbed])
      requires block[..SHA256_BLOCK_SIZE] == message[absorbed..] + data[..room]
      modifies this, h, block
      ensures Valid() && message == old(message) + data
    {
      var blockNb, whole, remLen := CutBlocks(|data| - room);
      var shifted := data[room..];
      AbsorbBlocks(shifted[..whole], blockNb, message[..absorbed]);
      var more := whole + SHA256_BLOCK_SIZE;
      ghost var end := absorbed + more;
      Regroup(message, absorbed, data, room, whole, end);
      KeepRest(shifted[whole..], remLen, more, end, message + data);
    }

    static method CutBlocks(newLen: nat) returns (blockNb: nat, whole: nat, remLen: nat)
      ensures whole == SHA256_BLOCK_SIZE * blockNb && newLen == whole + remLen && remLen < SHA256_BLOCK_SIZE
    {
      blockNb := newLen / SHA256_BLOCK_SIZE;
      whole := SHA256_BLOCK_SIZE * blockNb;
      remLen := newLen % SHA256_BLOCK_SIZE;
    }

    /** The buffered block, then whole blocks straight from the data. */
    method AbsorbBlocks(more: seq<Byte>, blockNb: nat, ghost before: seq<Byte>)
      requires Shaped() && |more| == SHA256_BLOCK_SIZE * blockNb && Whole(before) && h[..] == Absorbed(H0, before)
      modifies h
      ensures Whole(before + block[..SHA256_BLOCK_SIZE] + more)
      ensures h[..] == Absorbed(H0, before + block[..SHA256_BLOCK_SIZE] + more)
    {
      var first := block[..SHA256_BLOCK_SIZE];
      Transform(first, 1);
      Transform(more, blockNb);
      FoldThree(H0, before, first, more);
    }

    /** Buffer what is behind the last complete block. */
    method KeepRest(rest: seq<Byte>, remLen: nat, more: nat, ghost end: nat, ghost m: seq<Byte>)
      requires Shaped() && |rest| == remLen < SHA256_BLOCK_SIZE && end <= |m| && rest == m[end..]
      requires Whole(m[..end]) && h[..] == Absorbed(H0, m[..end])
      requires totLen == absorbed % BASE && end == absorbed + more
      modifies this, block
      ensures Valid() && message == m
    {
      CopyIn(0, rest);
      len := remLen;
      CountBytes(more);
      message, absorbed := m, end;
    }

    method CountBytes(more: nat)
      requires totLen == absorbed % BASE
      modifies this`totLen
      ensures totLen == (absorbed + more) % BASE
    {
      totLen := (totLen + more) % BASE;
    }

    /** Pad, absorb the last blocks and store the digest. */
    method Final()
      requires Valid()
      modifies h, block, buf
      ensures buf[..] == Sha256ShortLength(message)
      ensures |message| < 0x2000_0000 ==> buf[..] == Sha256(message)
    {
      var blockNb := Pad();
      var pmLen := SHA256_BLOCK_SIZE * blockNb;
      LastBlocks(block[..pmLen], blockNb, message[..absorbed], message + ShortPadding(|message|));
      ShortPaddingIsWhole(message);
      StoreDigest();
      if |message| < 0x2000_0000 { ShortPaddingIsStandardBelow512MiB(|message|); }
    }

    /** Pad the buffered bytes to one block or two. */
    method Pad() returns (blockNb: nat)
      requires Valid()
      modifies block
      ensures SHA256_BLOCK_SIZE * blockNb <= block.Length
      ensures message + ShortPadding(|message|) == message[..absorbed] + block[..SHA256_BLOCK_SIZE * blockNb]
    {
      blockNb := if SHA256_BLOCK_SIZE - 9 < len % SHA256_BLOCK_SIZE then 2 else 1;
      var lenB := 8 * (totLen + len) % BASE;
      var pmLen := SHA256_BLOCK_SIZE * blockNb;
      LengthField(absorbed, len, totLen);
      PadLength(message, absorbed, len, blockNb, pmLen);
      WritePadding(pmLen, lenB, |message|, message[absorbed..]);
    }

    method LastBlocks(last: seq<Byte>, blockNb: nat, ghost before: seq<Byte>, ghost all: seq<Byte>)
      requires Shaped() && |last| == SHA256_BLOCK_SIZE * blockNb
      requires Whole(before) && h[..] == Absorbed(H0, before) && all == before + last
      modifies h
      ensures Whole(all) && h[..] == Absorbed(H0, all)
    {
      Transform(last, blockNb);
      FoldConcat<Hash>(Compress, H0, before, last);
    }

    /** The one bit, the zeros and the length behind the buffered bytes. */
    method WritePadding(pmLen: nat, lenB: Word, ghost total: nat, ghost tail: seq<Byte>)
      requires Shaped() && len < SHA256_BLOCK_SIZE && pmLen <= block.Length
      requires pmLen == len + 1 + ZeroCount(total) + 8 && lenB == 8 * total % BASE
      requires block[..len] == tail
      modifies block
      ensures block[..pmLen] == tail + ShortPadding(total)
    {
      var zeros := Zeros(pmLen - len);
      CopyIn(len, zeros);
      assert block[..pmLen] == tail + zeros;
      block[len] := 0x80;
      assert block[..pmLen - 4] == tail + [0x80] + Zeros(ZeroCount(total) + 4);
      StoreLength(pmLen - 4, lenB);
      assert tail + ShortPadding(total) == tail + [0x80] + Zeros(ZeroCount(total) + 4) + BytesOfWord(lenB);
    }

    method StoreLength(at: nat, x: Word)
      requires at + 4 <= block.Length
      modifies block
      ensures block[..at + 4] == old(block[..at]) + BytesOfWord(x)
    {
      var b := BytesOfWord(x);
      block[at], block[at + 1], block[at + 2], block[at + 3] := b[0], b[1], b[2], b[3];
    }

    /** memcpy into the block buffer. */
    method CopyIn(at: nat, src: seq<Byte>)
      requires at + |src| <= block.Length
      modifies block
      ensures block[..at + |src|] == old(block[..at]) + src
      ensures block[at + |src|..] == old(block[at + |src|..])
    {
      var i := 0;
      while i < |src|
        invariant 0 <= i <= |src|
        invariant block[..at + i] == old(block[..at]) + src[..i]
        invariant block[at + i..] == old(block[at + i..])
      {
        block[at + i] := src[i];
        assert block[..at + i + 1] == old(block[..at]) + src[..i] + [src[i]];
        i := i + 1;
      }
    }

    /** The hash value as bytes. */
    method StoreDigest()
      requires Shaped()
      modifies buf
      ensures buf[..] == Digest(h[..])
    {
      var i := 0;
      while i < 8
        invariant 0 <= i <= 8 && buf[..4 * i] == Digest(h[..i])
      {
        assert h[..i + 1][..i] == h[..i];
        StoreWord(4 * i, h[i]);
        i := i + 1;
      }
      assert buf[..4 * i] == buf[..] && h[..i] == h[..];
    }

    method StoreWord(at: nat, x: Word)
      requires at + 4 <= buf.Length
      modifies buf
      ensures buf[..at + 4] == old(buf[..at]) + BytesOfWord(x)
    {
      var b := BytesOfWord(x);
      buf[at], buf[at + 1], buf[at + 2], buf[at + 3] := b[0], b[1], b[2], b[3];
    }
  }

  /** All pieces one after the other. */
  function Joined(pieces: seq<seq<Byte>>): seq<Byte> {
    if pieces == [] then [] else Joined(pieces[..|pieces| - 1]) + pieces[|pieces| - 1]
  }

  lemma {:induction false} OnePieceMore(pieces: seq<seq<Byte>>, i: nat)
    requires i < |pieces|
    ensures Joined(pieces[..i + 1]) == Joined(pieces[..i]) + pieces[i]
    ensures |Joined(pieces[..i + 1])| <= |Joined(pieces)|
    decreases |pieces| - i
  {
    assert pieces[..i + 1][..i] == pieces[..i];
    if i + 1 < |pieces| { OnePieceMore(pieces, i + 1); } else { assert pieces[..i + 1] == pieces; }
  }

  /** However the message is cut into updates, the digest is that of the whole message. */
  method HashInPieces(pieces: seq<seq<Byte>>) returns (digest: array<Byte>)
    requires |Joined(pieces)| < 0x2000_0000
    ensures digest[..] == Sha256(Joined(pieces))
  {
    var ctx := new Context.Init();
    var i := 0;
    while i < |pieces|
      invariant 0 <= i <= |pieces| && ctx.Valid() && ctx.message == Joined(pieces[..i])
      invariant fresh(ctx) && fresh(ctx.h) && fresh(ctx.block) && fresh(ctx.buf)
    {
      OnePieceMore(pieces, i);
      ctx.Update(pieces[i]);
      i := i + 1;
    }
    assert pieces[..i] == pieces;
    ctx.Final();
    digest := ctx.buf;
  }

  lemma LengthField(absorbed: nat, len: nat, totLen: Word)
    requires totLen == absorbed % BASE
    ensures 8 * (totLen + len) % BASE == 8 * (absorbed + len) % BASE
  {
    var q := absorbed / BASE;
    assert 8 * (absorbed + len) == 8 * (totLen + len) + 8 * q * BASE;
  }

  /** The padded tail is one block, or two when the buffered bytes leave no room for the length. */
  lemma PadLength(m: seq<Byte>, absorbed: nat, len: nat, blockNb: nat, pmLen: nat)
    requires absorbed + len == |m| && len < 64 && Whole(m[..absorbed])
    requires blockNb == (if 55 < len % 64 then 2 else 1) && pmLen == 64 * blockNb
    ensures pmLen == len + 1 + ZeroCount(|m|) + 8
    ensures m + ShortPadding(|m|) == m[..absorbed] + (m[absorbed..] + ShortPadding(|m|))
  {
    WholeLength(m[..absorbed]);
    PadCount(absorbed, len);
    Recut(m, absorbed, ShortPadding(|m|));
  }

  lemma PadCount(absorbed: nat, len: nat)
    requires absorbed % 64 == 0 && len < 64
    ensures ZeroCount(absorbed + len) == if 55 < len then 119 - len else 55 - len
  {
    var q := absorbed / 64;
    assert 55 - (absorbed + len) == (55 - len) + 64 * (-q);
  }

  lemma Recut(m: seq<Byte>, n: nat, end: seq<Byte>)
    requires n <= |m|
    ensures m + end == m[..n] + (m[n..] + end)
  {
    assert m == m[..n] + m[n..];
  }

  lemma WrapsOnce(len: nat, n: nat, sum: Word)
    requires len < 64 && n < BASE && sum == (len + n) % BASE
    ensures sum == if len + n < BASE then len + n else len + n - BASE
    ensures sum >= 64 ==> len + n < BASE
  {
  }

  lemma KeepPart(m: seq<Byte>, tot: nat, end: nat)
    requires tot <= end <= |m|
    ensures m[..end][..tot] == m[..tot] && m[..end][tot..] == m[tot..][..end - tot]
  {
  }

  lemma AppendToTail(m: seq<Byte>, tot: nat, data: seq<Byte>)
    requires tot <= |m|
    ensures (m + data)[..tot] == m[..tot] && (m + data)[tot..] == m[tot..] + data
    ensures data[..|data|] == data
  {
  }

  lemma Regroup<E>(m: seq<E>, tot: nat, data: seq<E>, room: nat, k: nat, end: nat)
    requires tot <= |m| && room + k <= |data| && end == |m| + room + k
    ensures (m + data)[..end] == m[..tot] + (m[tot..] + data[..room]) + data[room..][..k]
    ensures (m + data)[end..] == data[room..][k..]
  {
    var front, rest := m[..tot] + (m[tot..] + data[..room]) + data[room..][..k], data[room..][k..];
    assert front == m + data[..room + k];
    assert rest == data[room + k..];
    assert data == data[..room + k] + data[room + k..];
    assert m + data == front + rest;
  }

  lemma OneMoreBlock(h: Hash, before: seq<Byte>, block: Block)
    requires Whole(before)
    ensures Whole(before + block) && Absorbed(h, before + block) == Compress(Absorbed(h, before), block)
  {
    var s := before + block;
    assert s[..|s| - 64] == before && s[|s| - 64..] == block;
  }

  lemma FoldThree(h: Hash, a: seq<Byte>, b: seq<Byte>, c: seq<Byte>)
    requires Whole(a) && Whole(b) && Whole(c)
    ensures Whole(a + b + c)
    ensures Absorbed(h, a + b + c) == Absorbed(Absorbed(Absorbed(h, a), b), c)
  {
    FoldConcat<Hash>(Compress, h, a, b);
    FoldConcat<Hash>(Compress, h, a + b, c);
  }

  /** Unpack the block and extend it to the message schedule. */
  method Schedule(subBlock: Block) returns (w: array<Word>)
    ensures fresh(w) && w.Length == 64 && forall t :: 0 <= t < 64 ==> w[t] == W(subBlock, t)
  {
    w := new Word[64];
    var j := 0;
    while j < 16
      invariant 0 <= j <= 16
      invariant forall t :: 0 <= t < j ==> w[t] == W(subBlock, t)
    {
      w[j] := WordOfBytes(subBlock[4 * j..4 * j + 4]);
      j := j + 1;
    }
    while j < 64
      invariant 16 <= j <= 64
      invariant forall t :: 0 <= t < j ==> w[t] == W(subBlock, t)
    {
      w[j] := Extend(w[j - 2], w[j - 7], w[j - 15], w[j - 16]);
      j := j + 1;
    }
  }

  ghost function VarsOf(wv: array<Word>): Vars
    requires wv.Length == 8
    reads wv
  {
    Vars(wv[0], wv[1], wv[2], wv[3], wv[4], wv[5], wv[6], wv[7])
  }

  /** The 64 rounds, on the array of working variables. */
  method RunRounds(wv: array<Word>, w: array<Word>, ghost start: Vars, ghost subBlock: Block)
    requires wv.Length == 8 && w.Length == 64 && wv != w && VarsOf(wv) == start
    requires forall t :: 0 <= t < 64 ==> w[t] == W(subBlock, t)
    modifies wv
    ensures VarsOf(wv) == Rounds(start, subBlock, |subBlock|)
  {
    var j := 0;
    while j < 64
      invariant 0 <= j <= 64
      invariant VarsOf(wv) == Rounds(start, subBlock, j)
    {
      OneRound(wv, K[j], w[j]);
      j := j + 1;
    }
  }

  method OneRound(wv: array<Word>, k: Word, w: Word)
    requires wv.Length == 8
    modifies wv
    ensures VarsOf(wv) == Round(old(VarsOf(wv)), k, w)
  {
    var t1 := T1(wv[4], wv[5], wv[6], wv[7], k, w);
    var t2 := T2(wv[0], wv[1], wv[2]);
    ShiftVars(wv, t1, t2);
  }

  method ShiftVars(wv: array<Word>, t1: Word, t2: Word)
    requires wv.Length == 8
    modifies wv
    ensures VarsOf(wv) == ShiftIn(old(VarsOf(wv)), t1, t2)
  {
    wv[7] := wv[6];
    wv[6] := wv[5];
    wv[5] := wv[4];
    wv[4] := (wv[3] + t1) % BASE;
    wv[3] := wv[2];
    wv[2] := wv[1];
    wv[1] := wv[0];
    wv[0] := (t1 + t2) % BASE;
  }
}
