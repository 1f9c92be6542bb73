/** A queue of units in a ring of bytes, with indices that run freely (common/queue.c). */
module Queue {
  import opened ModArith
  import opened Bits
  import opened Memory
  import opened Words

  /** size_t is 32 bits wide. */
  type Size = Word

  function Min(a: Size, b: Size): Size { if a < b then a else b }

  /** n units of unitBytes bytes each. */
  function Bytes(n: nat, unitBytes: nat): nat { if n == 0 then 0 else unitBytes + Bytes(n - 1, unitBytes) }

  lemma {:induction false} BytesIsProduct(n: nat, unitBytes: nat)
    ensures Bytes(n, unitBytes) == n * unitBytes
  {
    if n > 0 { BytesIsProduct(n - 1, unitBytes); }
  }

  lemma {:induction false} BytesAdd(a: nat, b: nat, unitBytes: nat)
    ensures Bytes(a + b, unitBytes) == Bytes(a, unitBytes) + Bytes(b, unitBytes)
    decreases b
  {
    if b > 0 { BytesAdd(a, b - 1, unitBytes); }
  }

  /** x back at the start of a ring of n when it reaches the end. */
  function Wrap(x: nat, n: nat): nat { if x < n then x else x - n }

  /** The n bytes of a ring from start. */
  function Ring(buf: seq<Byte>, start: nat, n: nat): (s: seq<Byte>)
    requires start <= |buf| && n <= |buf|
    ensures |s| == n
  {
    if start + n <= |buf| then buf[start..start + n] else buf[start..] + buf[..start + n - |buf|]
  }

  lemma Cut(s: seq<Byte>, a: nat, b: nat, c: nat)
    requires a <= b <= c <= |s|
    ensures s[a..c] == s[a..b] + s[b..c]
  {
  }

  lemma {:induction false} RingJoins(buf: seq<Byte>, start: nat, n: nat, m: nat, next: nat)
    requires start < |buf| && n + m <= |buf| && next == Wrap(start + n, |buf|)
    ensures Ring(buf, start, n + m) == Ring(buf, start, n) + Ring(buf, next, m)
  {
    if start + n == |buf| && m == 0 {
    } else if start + n + m <= |buf| {
      Cut(buf, start, start + n, start + n + m);
    } else if start + n < |buf| {
      Cut(buf, start, start + n, |buf|);
      RingOverEnd(buf, start, n, m);
    } else {
      Cut(buf, 0, next, next + m);
      assert buf[..next + m] == buf[0..next + m] && buf[..next] == buf[0..next];
      RingBehindEnd(buf, start, n, m, next);
    }
  }

  lemma Regroup(a: seq<Byte>, b: seq<Byte>, c: seq<Byte>)
    ensures (a + b) + c == a + (b + c)
  {
  }

  /** The second part goes over the end of the buffer. */
  lemma RingOverEnd(buf: seq<Byte>, start: nat, n: nat, m: nat)
    requires start + n < |buf| < start + n + m && n + m <= |buf|
    requires buf[start..] == buf[start..start + n] + buf[start + n..]
    ensures Ring(buf, start, n + m) == Ring(buf, start, n) + Ring(buf, start + n, m)
  {
    Regroup(buf[start..start + n], buf[start + n..], buf[..start + n + m - |buf|]);
  }

  /** The first part goes up to the end of the buffer or over it. */
  lemma RingBehindEnd(buf: seq<Byte>, start: nat, n: nat, m: nat, next: nat)
    requires start < |buf| <= start + n && n + m <= |buf| < start + n + m && next == start + n - |buf|
    requires buf[..next + m] == buf[..next] + buf[next..next + m]
    ensures Ring(buf, start, n + m) == Ring(buf, start, n) + Ring(buf, next, m)
  {
    RingToEnd(buf, start, n, next);
    Regroup(buf[start..], buf[..next], buf[next..next + m]);
  }

  lemma RingToEnd(buf: seq<Byte>, start: nat, n: nat, next: nat)
    requires start < |buf| <= start + n && n <= |buf| && next == start + n - |buf|
    ensures Ring(buf, start, n) == buf[start..] + buf[..next]
  {
  }

  lemma {:induction false} RingDrops(buf: seq<Byte>, start: nat, n: nat, m: nat, next: nat)
    requires start < |buf| && n + m <= |buf| && next == Wrap(start + n, |buf|)
    ensures Ring(buf, start, n + m)[n..] == Ring(buf, next, m) && Ring(buf, start, n + m)[..n] == Ring(buf, start, n)
  {
    RingJoins(buf, start, n, m, next);
  }

  /** buf with data written over the ring from start. */
  function Overwritten(buf: seq<Byte>, start: nat, data: seq<Byte>): (s: seq<Byte>)
    requires start <= |buf| && |data| <= |buf|
    ensures |s| == |buf|
  {
    if start + |data| <= |buf| then buf[..start] + data + buf[start + |data|..]
    else
      var first := |buf| - start;
      data[first..] + buf[|data| - first..start] + data[..first]
  }

  lemma {:induction false} RingReadsBack(buf: seq<Byte>, start: nat, data: seq<Byte>)
    requires start < |buf| && |data| <= |buf|
    ensures Ring(Overwritten(buf, start, data), start, |data|) == data
  {
    if start + |data| > |buf| {
      var first := |buf| - start;
      assert data == data[..first] + data[first..];
    }
  }

  lemma {:induction false} RingElsewhere(buf: seq<Byte>, start: nat, n: nat, next: nat, data: seq<Byte>)
    requires start < |buf| && n + |data| <= |buf| && next == Wrap(start + n, |buf|)
    ensures Ring(Overwritten(buf, next, data), start, n) == Ring(buf, start, n)
  {
    var over := Overwritten(buf, next, data);
    forall k | 0 <= k < n ensures Ring(over, start, n)[k] == Ring(buf, start, n)[k] {
      RingAt(buf, start, n, k);
      RingAt(over, start, n, k);
      OverwrittenAt(buf, next, data, Wrap(start + k, |buf|));
    }
  }

  lemma RingAt(buf: seq<Byte>, start: nat, n: nat, k: nat)
    requires start < |buf| && k < n <= |buf|
    ensures Ring(buf, start, n)[k] == buf[Wrap(start + k, |buf|)]
  {
  }

  /** What lies outside the ring from start is kept. */
  lemma OverwrittenAt(buf: seq<Byte>, start: nat, data: seq<Byte>, k: nat)
    requires start < |buf| && |data| <= |buf| && k < |buf|
    requires if start + |data| <= |buf| then k < start || start + |data| <= k else start + |data| - |buf| <= k < start
    ensures Overwritten(buf, start, data)[k] == buf[k]
  {
  }

  /** Unsigned addition and subtraction of sizes. */
  function Plus(a: Size, b: Size): Size { if a + b < BASE then a + b else a + b - BASE }
  function Minus(a: Size, b: Size): Size { if a >= b then a - b else a - b + BASE }

  /** Reduction of a free-running index commutes with adding to it, when the ring size divides 2^32. */
  lemma {:induction false} IndexWraps(x: Size, c: Size, n: nat, q: nat, r: nat)
    requires n > 0 && n * q == BASE && c <= n && r == x % n
    ensures r < n && Plus(x, c) % n == Wrap(r + c, n)
  {
    var a := x / n;
    assert x == a * n + r;
    CongIntro(x + c, r + c, a, n);
    PlusCong(x, c, n, q);
    WrapCong(r, c, n);
    CongTrans(Plus(x, c), x + c, r + c, n);
    CongTrans(Plus(x, c), r + c, Wrap(r + c, n), n);
    CongRemainder(Plus(x, c), Wrap(r + c, n), n);
  }

  lemma {:induction false} PlusCong(x: Size, c: Size, n: nat, q: nat)
    requires n * q == BASE
    ensures Cong(Plus(x, c), x + c, n)
  {
    if x + c < BASE {
      CongRefl(x + c, n);
    } else {
      assert (0 - q) * n == 0 - BASE;
      CongIntro(Plus(x, c), x + c, 0 - q, n);
    }
  }

  lemma {:induction false} WrapCong(r: nat, c: nat, n: nat)
    requires 0 < n && r < n && c <= n
    ensures Cong(r + c, Wrap(r + c, n), n) && Wrap(r + c, n) < n
  {
    if r + c < n { CongRefl(r + c, n); } else { CongIntro(r + c, r + c - n, 1, n); }
  }

  /** The place in the buffer of a free-running index. */
  function Index(x: Size, units: nat): nat
    requires units > 0
  {
    And(x, units - 1)
  }

  ghost predicate PowerOfTwo(units: nat, log: nat) { log <= 31 && units == Pow(2, log) && units < BASE }

  lemma {:induction false} IndexIsRemainder(x: Size, units: nat, log: nat)
    requires PowerOfTwo(units, log)
    ensures units > 0 && Index(x, units) == x % units < units
  {
    MaskIsRemainder(x, log);
  }

  lemma PowOfTwo32()
    ensures Pow(2, 32) == BASE
  {
    assert Pow(2, 8) == 256;
    PowAdd(2, 8, 8);
    PowAdd(2, 16, 16);
  }

  lemma {:induction false} IndexMoves(x: Size, c: Size, units: nat, log: nat)
    requires PowerOfTwo(units, log) && c <= units
    ensures units > 0 && Index(x, units) < units
    ensures Index(Plus(x, c), units) == Wrap(Index(x, units) + c, units) < units
  {
    PowOfTwo32();
    PowAdd(2, log, 32 - log);
    IndexIsRemainder(x, units, log);
    IndexIsRemainder(Plus(x, c), units, log);
    IndexWraps(x, c, units, Pow(2, 32 - log), Index(x, units));
  }

  /** The same in bytes. */
  lemma {:induction false} Moves(x: Size, c: Size, units: nat, log: nat, unitBytes: nat)
    requires PowerOfTwo(units, log) && c <= units && unitBytes > 0
    ensures units > 0
    ensures Bytes(Index(Plus(x, c), units), unitBytes)
         == Wrap(Bytes(Index(x, units), unitBytes) + Bytes(c, unitBytes), Bytes(units, unitBytes))
  {
    IndexMoves(x, c, units, log);
    var r := Index(x, units);
    BytesAdd(r, c, unitBytes);
    if r + c < units {
      BytesBelow(r + c, units, unitBytes);
    } else {
      BytesAdd(units, r + c - units, unitBytes);
    }
  }

  lemma {:induction false} BytesBelow(n: nat, units: nat, unitBytes: nat)
    requires n <= units
    ensures Bytes(n, unitBytes) + Bytes(units - n, unitBytes) == Bytes(units, unitBytes)
    ensures n < units && unitBytes > 0 ==> Bytes(n, unitBytes) < Bytes(units, unitBytes)
  {
    BytesAdd(n, units - n, unitBytes);
  }

  /** Offset in bytes of a free-running index. */
  function Offset(x: Size, units: nat, unitBytes: nat): nat
    requires units > 0
  {
    Bytes(Index(x, units), unitBytes)
  }

  /** Moving the head over units that are in the queue. */
  lemma {:induction false} HeadMoves(head: Size, tail: Size, n: Size, units: nat, log: nat, unitBytes: nat)
    requires PowerOfTwo(units, log) && unitBytes > 0 && n <= Minus(tail, head) <= units
    ensures var rest, size := Minus(tail, Plus(head, n)), Bytes(units, unitBytes);
            && units > 0 && rest == Minus(tail, head) - n
            && Offset(Plus(head, n), units, unitBytes) == Wrap(Offset(head, units, unitBytes) + Bytes(n, unitBytes), size) < size
            && Bytes(n, unitBytes) + Bytes(rest, unitBytes) == Bytes(Minus(tail, head), unitBytes)
  {
    BytesAdd(n, Minus(tail, head) - n, unitBytes);
    Moves(head, n, units, log, unitBytes);
    OffsetFits(Plus(head, n), units, log, unitBytes);
  }

  lemma {:induction false} OffsetFits(x: Size, units: nat, log: nat, unitBytes: nat)
    requires PowerOfTwo(units, log) && unitBytes > 0
    ensures units > 0 && Offset(x, units, unitBytes) < Bytes(units, unitBytes)
  {
    IndexMoves(x, 0, units, log);
    BytesBelow(Index(x, units), units, unitBytes);
  }

  /** Moving the tail over units that are not. */
  lemma {:induction false} TailMoves(head: Size, tail: Size, n: Size, units: nat, log: nat, unitBytes: nat)
    requires PowerOfTwo(units, log) && unitBytes > 0 && Minus(tail, head) + n <= units
    ensures var count, size := Minus(tail, head), Bytes(units, unitBytes);
            && units > 0 && Minus(Plus(tail, n), head) == count + n
            && Bytes(count + n, unitBytes) == Bytes(count, unitBytes) + Bytes(n, unitBytes) <= size
            && Offset(tail, units, unitBytes) == Wrap(Offset(head, units, unitBytes) + Bytes(count, unitBytes), size) < size
  {
    var count := Minus(tail, head);
    BytesAdd(count, n, unitBytes);
    BytesBelow(count + n, units, unitBytes);
    Moves(head, count, units, log, unitBytes);
    OffsetFits(tail, units, log, unitBytes);
  }

  class Queue {
    const bufferUnits: nat
    const unitBytes: nat
    const buffer: array<Byte>
    var head: Size
    var tail: Size
    /** The size is a power of two. */
    ghost const log: nat

    ghost predicate Sized() {
      && PowerOfTwo(bufferUnits, log) && bufferUnits > 0 && unitBytes > 0
      && buffer.Length == Bytes(bufferUnits, unitBytes)
    }

    ghost predicate Valid()
      reads this
    {
      Sized() && Count() <= bufferUnits && At(head) < buffer.Length && Length() <= buffer.Length
    }

    ghost function At(x: Size): nat
      requires Sized()
    {
      Offset(x, bufferUnits, unitBytes)
    }

    /** Bytes in the queue. */
    ghost function Length(): nat
      reads this
    {
      Bytes(Count(), unitBytes)
    }

    /** The bytes of the units in the queue, oldest first. */
    ghost function Contents(): seq<Byte>
      requires Valid()
      reads this, buffer
    {
      Ring(buffer[..], At(head), Length())
    }

    constructor (units: nat, bytes: nat, ghost k: nat, data: array<Byte>)
      requires PowerOfTwo(units, k) && bytes > 0 && data.Length == Bytes(units, bytes)
      ensures Valid() && Contents() == [] && bufferUnits == units && unitBytes == bytes && buffer == data
    {
      OffsetFits(0, units, k, bytes);
      bufferUnits, unitBytes, buffer, log := units, bytes, data, k;
      head, tail := 0, 0;
    }

    function Count(): Size
      reads this
    {
      Minus(tail, head)
    }

    function Space(): Size
      requires Valid()
      reads this
    {
      bufferUnits - Count()
    }

    predicate IsEmpty()
      requires Valid()
      reads this
      ensures IsEmpty() <==> Count() == 0
    {
      head == tail
    }

    predicate IsFull()
      requires Valid()
      reads this
      ensures IsFull() <==> Count() == bufferUnits
    {
      Space() == 0
    }

    /** Discard units from the head. */
    method AdvanceHead(count: Size) returns (transfer: Size)
      requires Valid()
      modifies this`head
      ensures Valid() && transfer == Min(count, old(Count()))
      ensures Bytes(transfer, unitBytes) <= |old(Contents())| && Contents() == old(Contents())[Bytes(transfer, unitBytes)..]
    {
      transfer := Min(count, Count());
      ghost var n, rest := Bytes(transfer, unitBytes), Bytes(Count() - transfer, unitBytes);
      HeadMoves(head, tail, transfer, bufferUnits, log, unitBytes);
      RingDrops(buffer[..], At(head), n, rest, At(Plus(head, transfer)));
      head := Plus(head, transfer);
    }

    /** Take the units behind the tail, which are in the buffer already, into the queue. */
    method AdvanceTail(count: Size) returns (transfer: Size)
      requires Valid()
      modifies this`tail
      ensures Valid() && transfer == Min(count, old(Space()))
      ensures old(At(tail)) < buffer.Length && Bytes(transfer, unitBytes) <= buffer.Length
      ensures Contents() == old(Contents()) + Ring(buffer[..], old(At(tail)), Bytes(transfer, unitBytes))
    {
      transfer := Min(count, Space());
      ghost var n := Bytes(transfer, unitBytes);
      TailMoves(head, tail, transfer, bufferUnits, log, unitBytes);
      RingJoins(buffer[..], At(head), Length(), n, At(tail));
      tail := Plus(tail, transfer);
    }

    /** Copy n units from src into the ring from unit at, the first units up to the end of the buffer. */
    method WriteWrapped(at: nat, src: seq<Byte>, n: nat, first: nat)
      requires Sized() && at < bufferUnits && n <= bufferUnits && first == (if n < bufferUnits - at then n else bufferUnits - at)
      requires Bytes(n, unitBytes) <= |src|
      modifies buffer
      ensures Bytes(at, unitBytes) < buffer.Length && Bytes(n, unitBytes) <= buffer.Length
      ensures buffer[..] == Overwritten(old(buffer[..]), Bytes(at, unitBytes), src[..Bytes(n, unitBytes)])
    {
      BytesBelow(at, bufferUnits, unitBytes);
      BytesBelow(n, bufferUnits, unitBytes);
      BytesBelow(first, n, unitBytes);
      BytesBelow(first, bufferUnits - at, unitBytes);
      WriteBytes(Bytes(at, unitBytes), src[..Bytes(n, unitBytes)], Bytes(first, unitBytes));
    }

    method WriteBytes(start: nat, data: seq<Byte>, first: nat)
      requires start < buffer.Length && |data| <= buffer.Length && first <= |data| && start + first <= buffer.Length
      requires first == |data| || start + first == buffer.Length
      modifies buffer
      ensures buffer[..] == Overwritten(old(buffer[..]), start, data)
    {
      assert data[..|data|] == data;
      MemCpy(buffer, start, data[..first]);
      if first < |data| {
        assert old(buffer[start + first..]) == [];
        MemCpy(buffer, 0, data[first..]);
      }
    }

    /** Append the longest prefix of the units at src that fits. */
    method AddUnits(src: seq<Byte>, count: Size) returns (transfer: Size)
      requires Valid() && |src| == Bytes(count, unitBytes)
      modifies this`tail, buffer
      ensures Valid() && transfer == Min(count, old(Space()))
      ensures Bytes(transfer, unitBytes) <= |src| && Contents() == old(Contents()) + src[..Bytes(transfer, unitBytes)]
    {
      var n := Min(count, Space());
      BytesBelow(n, count, unitBytes);
      var at := Index(tail, bufferUnits);
      IndexMoves(tail, 0, bufferUnits, log);
      var first := if n < bufferUnits - at then n else bufferUnits - at;
      ghost var before, data := buffer[..], src[..Bytes(n, unitBytes)];
      TailMoves(head, tail, n, bufferUnits, log, unitBytes);
      WriteWrapped(at, src, n, first);
      RingElsewhere(before, At(head), Length(), At(tail), data);
      RingReadsBack(before, At(tail), data);
      transfer := AdvanceTail(n);
    }

    method AddUnit(src: seq<Byte>) returns (transfer: Size)
      requires Valid() && |src| == unitBytes
      modifies this`tail, buffer
      ensures Valid() && transfer == Min(1, old(Space()))
      ensures Contents() == old(Contents()) + if old(Space()) > 0 then src else []
    {
      if Space() == 0 { return 0; }
      var at := Index(tail, bufferUnits);
      TailMoves(head, tail, 1, bufferUnits, log, unitBytes);
      OneUnit(unitBytes);
      UnitFits(tail, bufferUnits, log, unitBytes);
      ghost var before := buffer[..];
      StoreUnit(at, src);
      RingElsewhere(before, At(head), Length(), At(tail), src);
      RingReadsBack(before, At(tail), src);
      transfer := AdvanceTail(1);
    }

    method StoreUnit(at: nat, src: seq<Byte>)
      requires |src| == unitBytes > 0 && Bytes(at, unitBytes) + unitBytes <= buffer.Length
      modifies buffer
      ensures buffer[..] == Overwritten(old(buffer[..]), Bytes(at, unitBytes), src)
    {
      if unitBytes == 1 {
        BytesIsProduct(at, 1);
        buffer[at] := src[0];
      } else {
        MemCpy(buffer, Bytes(at, unitBytes), src);
      }
    }

    method LoadUnit(dest: array<Byte>, at: nat)
      requires 0 < unitBytes <= dest.Length && Bytes(at, unitBytes) + unitBytes <= buffer.Length && dest != buffer
      modifies dest
      ensures dest[..] == buffer[Bytes(at, unitBytes)..Bytes(at, unitBytes) + unitBytes] + old(dest[unitBytes..])
    {
      if unitBytes == 1 {
        BytesIsProduct(at, 1);
        dest[0] := buffer[at];
      } else {
        MemCpy(dest, 0, buffer[Bytes(at, unitBytes)..Bytes(at, unitBytes) + unitBytes]);
      }
    }

    /** Copy units of the ring out, the first ones up to the end of the buffer. */
    method ReadSafe(dest: array<Byte>, at: nat, n: nat)
      requires Sized() && at < bufferUnits && n <= bufferUnits && Bytes(n, unitBytes) <= dest.Length && dest != buffer
      modifies dest
      ensures Bytes(at, unitBytes) < buffer.Length && Bytes(n, unitBytes) <= buffer.Length
      ensures dest[..] == Ring(buffer[..], Bytes(at, unitBytes), Bytes(n, unitBytes)) + old(dest[Bytes(n, unitBytes)..])
    {
      var first := if n < bufferUnits - at then n else bufferUnits - at;
      BytesBelow(at, bufferUnits, unitBytes);
      BytesBelow(n, bufferUnits, unitBytes);
      BytesBelow(first, n, unitBytes);
      BytesBelow(first, bufferUnits - at, unitBytes);
      ReadBytes(dest, Bytes(at, unitBytes), Bytes(n, unitBytes), Bytes(first, unitBytes));
    }

    method ReadBytes(dest: array<Byte>, start: nat, n: nat, first: nat)
      requires start < buffer.Length && n <= buffer.Length && first <= n <= dest.Length && start + first <= buffer.Length
      requires (first == n || start + first == buffer.Length) && dest != buffer
      modifies dest
      ensures dest[..] == Ring(buffer[..], start, n) + old(dest[n..])
    {
      ghost var x, y := buffer[start..start + first], buffer[..n - first];
      MemCpy(dest, 0, buffer[start..start + first]);
      assert dest[..first] == x && dest[n..] == old(dest[n..]);
      if first < n {
        assert x == buffer[start..];
        MemCpy(dest, first, buffer[..n - first]);
        assert dest[..] == x + y + old(dest[n..]);
      }
    }

    /** Copy n units of the queue out, from the i-th on. */
    method ReadFrom(dest: array<Byte>, i: Size, n: Size)
      requires Valid() && i + n <= Count() && Bytes(n, unitBytes) <= dest.Length && dest != buffer
      modifies dest
      ensures CopiedOut(dest[..], old(dest[..]), Contents(), Bytes(i, unitBytes), Bytes(n, unitBytes))
    {
      ghost var next := Plus(head, i);
      HeadMoves(head, tail, i, bufferUnits, log, unitBytes);
      BytesBelow(n, Count() - i, unitBytes);
      IndexMoves(next, 0, bufferUnits, log);
      RingSlice(buffer[..], At(head), Length(), Bytes(i, unitBytes), Bytes(n, unitBytes), At(next));
      ReadSafe(dest, Index(Plus(head, i), bufferUnits), n);
    }

    method RemoveUnits(dest: array<Byte>, count: Size) returns (transfer: Size)
      requires Valid() && Bytes(count, unitBytes) <= dest.Length && dest != buffer
      modifies this`head, dest
      ensures Valid() && transfer == Min(count, old(Count()))
      ensures CopiedOut(dest[..], old(dest[..]), old(Contents()), 0, Bytes(transfer, unitBytes))
      ensures Contents() == old(Contents())[Bytes(transfer, unitBytes)..]
    {
      var n := Min(count, Count());
      BytesBelow(n, count, unitBytes);
      ReadFrom(dest, 0, n);
      transfer := AdvanceHead(n);
    }

    method LoadFirst(dest: array<Byte>)
      requires Valid() && Count() > 0 && unitBytes <= dest.Length && dest != buffer && unitBytes <= |Contents()|
      requires At(head) + unitBytes <= buffer.Length
      modifies dest
      ensures CopiedOut(dest[..], old(dest[..]), Contents(), 0, unitBytes)
    {
      RingSlice(buffer[..], At(head), Length(), 0, unitBytes, At(head));
      LoadUnit(dest, Index(head, bufferUnits));
    }

    method RemoveUnit(dest: array<Byte>) returns (transfer: Size)
      requires Valid() && unitBytes <= dest.Length && dest != buffer
      modifies this`head, dest
      ensures Valid() && transfer == Min(1, old(Count()))
      ensures CopiedOut(dest[..], old(dest[..]), old(Contents()), 0, Bytes(transfer, unitBytes))
      ensures Contents() == old(Contents())[Bytes(transfer, unitBytes)..]
    {
      if Count() == 0 { return 0; }
      OneUnit(unitBytes);
      UnitFits(head, bufferUnits, log, unitBytes);
      BytesBelow(1, Count(), unitBytes);
      LoadFirst(dest);
      transfer := AdvanceHead(1);
    }

    /** Copy out units from the i-th on, and leave them in the queue. */
    method PeekUnits(dest: array<Byte>, i: Size, count: Size) returns (transfer: Size)
      requires Valid() && Bytes(count, unitBytes) <= dest.Length && dest != buffer
      modifies dest
      ensures Contents() == old(Contents())
      ensures i <= Count() ==>
                && transfer == Min(count, Count() - i)
                && CopiedOut(dest[..], old(dest[..]), Contents(), Bytes(i, unitBytes), Bytes(transfer, unitBytes))
      ensures i > Count() ==> transfer == Min(count, Count() - i + BASE) && dest[..] == old(dest[..])
    {
      var available := Count();
      transfer := Min(count, Minus(available, i));
      BytesBelow(transfer, count, unitBytes);
      if i <= available { BytesBelow(i, available, unitBytes); }
      if i < available {
        ReadFrom(dest, i, transfer);
      }
    }

    // ---------------------------------------------------------------- chunks

    /** The largest contiguous block of free space from the tail: its offset and length, and the units it holds. */
    method GetWriteChunk() returns (offset: nat, length: nat, ghost n: Size)
      requires Valid()
      ensures offset == At(tail) && length == Bytes(n, unitBytes) && offset + length <= buffer.Length
      ensures n <= Space() && (n == Space() || offset + length == buffer.Length)
    {
      var h, t := Index(head, bufferUnits), Index(tail, bufferUnits);
      Places(head, tail, bufferUnits, log);
      var last := if IsFull() then t else if t < h then h else bufferUnits;
      n := last - t;
      BytesAdd(t, last - t, unitBytes);
      BytesBelow(last, bufferUnits, unitBytes);
      offset, length := Bytes(t, unitBytes), Bytes(last - t, unitBytes);
    }

    /** The largest contiguous block of units from the head. */
    method GetReadChunk() returns (offset: nat, length: nat, ghost n: Size)
      requires Valid()
      ensures offset == At(head) && length == Bytes(n, unitBytes) && offset + length <= buffer.Length
      ensures n <= Count() && (n == Count() || offset + length == buffer.Length)
      ensures length <= |Contents()| && buffer[offset..offset + length] == Contents()[..length]
    {
      offset, length, n := ReadChunkPlace();
      BytesBelow(n, Count(), unitBytes);
      RingSlice(buffer[..], At(head), Length(), 0, length, At(head));
    }

    method ReadChunkPlace() returns (offset: nat, length: nat, ghost n: Size)
      requires Valid()
      ensures offset == At(head) && length == Bytes(n, unitBytes) && offset + length <= buffer.Length
      ensures n <= Count() && (n == Count() || offset + length == buffer.Length)
    {
      var h, t := Index(head, bufferUnits), Index(tail, bufferUnits);
      Places(head, tail, bufferUnits, log);
      var last := if IsEmpty() then h else if h < t then t else bufferUnits;
      n := last - h;
      BytesAdd(h, last - h, unitBytes);
      BytesBelow(last, bufferUnits, unitBytes);
      offset, length := Bytes(h, unitBytes), Bytes(last - h, unitBytes);
    }

    /** Units that fit without wrapping fit in the write chunk; written there, advancing the tail appends them. */
    method AddThroughChunk(data: seq<Byte>, count: Size)
      requires Valid() && |data| == Bytes(count, unitBytes)
      requires count <= Space() && At(tail) + |data| <= buffer.Length
      modifies this`tail, buffer
      ensures Valid() && Contents() == old(Contents()) + data
    {
      var offset, length, n := GetWriteChunk();
      if count <= n { BytesBelow(count, n, unitBytes); } else { BytesBelow(n, count, unitBytes); }
      assert |data| <= length;
      TailMoves(head, tail, count, bufferUnits, log, unitBytes);
      ghost var before := buffer[..];
      FillChunk(offset, data);
      RingElsewhere(before, At(head), Length(), At(tail), data);
      RingReadsBack(before, At(tail), data);
      var transfer := AdvanceTail(count);
    }

    method FillChunk(offset: nat, data: seq<Byte>)
      requires offset + |data| <= buffer.Length
      modifies buffer
      ensures buffer[..] == Overwritten(old(buffer[..]), offset, data)
    {
      MemCpy(buffer, offset, data);
    }
  }

  /** The first n bytes of dest now hold the n bytes of contents from from. */
  ghost predicate CopiedOut(dest: seq<Byte>, before: seq<Byte>, contents: seq<Byte>, from: nat, n: nat) {
    from + n <= |contents| && n <= |before| && dest == contents[from..from + n] + before[n..]
  }

  /** Where the tail is from the head, in units. */
  lemma {:induction false} Places(head: Size, tail: Size, units: nat, log: nat)
    requires PowerOfTwo(units, log) && Minus(tail, head) <= units
    ensures units > 0 && Index(head, units) < units
    ensures Index(tail, units) == Wrap(Index(head, units) + Minus(tail, head), units) < units
  {
    IndexMoves(head, Minus(tail, head), units, log);
  }

  lemma OneUnit(unitBytes: nat)
    ensures Bytes(1, unitBytes) == unitBytes
  {
    assert Bytes(0, unitBytes) == 0;
  }

  lemma {:induction false} UnitFits(x: Size, units: nat, log: nat, unitBytes: nat)
    requires PowerOfTwo(units, log) && unitBytes > 0
    ensures units > 0 && Offset(x, units, unitBytes) + unitBytes <= Bytes(units, unitBytes)
  {
    IndexMoves(x, 0, units, log);
    BytesBelow(Index(x, units) + 1, units, unitBytes);
    BytesAdd(Index(x, units), 1, unitBytes);
    OneUnit(unitBytes);
  }

  lemma {:induction false} RingSlice(buf: seq<Byte>, start: nat, total: nat, a: nat, b: nat, next: nat)
    requires start < |buf| && a + b <= total <= |buf| && next == Wrap(start + a, |buf|)
    ensures Ring(buf, start, total)[a..a + b] == Ring(buf, next, b)
  {
    RingDrops(buf, start, a, total - a, next);
    assert Ring(buf, start, total)[a..a + b] == Ring(buf, start, total)[a..][..b];
    RingDrops(buf, next, b, total - a - b, Wrap(next + b, |buf|));
  }
}
