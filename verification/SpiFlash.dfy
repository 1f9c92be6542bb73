/** The SPI flash driver: erasing by blocks and writing by pages (common/spi_flash.c). */
module SpiFlash {
  import opened NorFlash
  import opened Memory
  import opened Words

  const EC_ERROR_INVAL := 5
  const SPI_FLASH_MAX_WRITE_SIZE := 256
  const SPI_FLASH_MAX_MESSAGE_SIZE := 260

  /** Where a chain of erased blocks that starts at address from ends: the blocks are aligned, follow each other without
      gap or overlap, and each erases the cells that its address selects; -1 when they do not. */
  ghost function ErasedEnd(ops: seq<Operation>, from: nat, length: nat): int
    requires length > 0
  {
    if ops == [] then from else
      match ops[|ops| - 1]
      case Erased(base, size) =>
        var at := ErasedEnd(ops[..|ops| - 1], from, length);
        if at >= 0 && IsBlockSize(size) && at % size == 0 && base == CellAt(at, length) then at + size else -1
      case Programmed(_, _) => -1
  }

  lemma {:induction false} OneMoreBlock(ops: seq<Operation>, from: nat, at: nat, size: nat, length: nat)
    requires length > 0 && ErasedEnd(ops, from, length) == at && IsBlockSize(size) && at % size == 0
    ensures ErasedEnd(ops + [Erased(CellAt(at, length), size)], from, length) == at + size
  {
    assert (ops + [Erased(CellAt(at, length), size)])[..|ops|] == ops;
  }

  /** The cell that the d-th address from offset on selects. */
  function Nth(offset: nat, d: nat, length: nat): (k: nat)
    requires length > 0
    ensures k < length && (offset + d < length <= 0x100_0000 ==> k == offset + d)
  {
    CellAt(offset + d, length)
  }

  /** Cell k is one that n addresses from offset on select. */
  ghost predicate Selected(k: nat, offset: nat, n: nat, length: nat)
    requires length > 0
  {
    exists d: nat :: d < n && Nth(offset, d, length) == k
  }

  /** The cells that a range of addresses selects are ones, and the others are as before. */
  ghost predicate FilledAt(before: seq<Byte>, after: seq<Byte>, offset: nat, n: nat) {
    && |after| == |before| > 0
    && forall k: nat :: k < |after| ==> after[k] == if Selected(k, offset, n, |before|) then 0xFF else before[k]
  }

  /** The cells that a range of addresses selects have been programmed with the data, and the others are as before. */
  ghost predicate OverAt(before: seq<Byte>, after: seq<Byte>, offset: nat, data: seq<Byte>) {
    && |after| == |before| > 0
    && (forall d: nat :: d < |data| ==>
          after[Nth(offset, d, |before|)] == Programming(before[Nth(offset, d, |before|)], data[d]))
    && forall k: nat :: k < |after| && !Selected(k, offset, |data|, |before|) ==> after[k] == before[k]
  }

  /** A range of addresses within the chip selects the cells of that range. */
  lemma SelectedInRange(k: nat, offset: nat, n: nat, length: nat)
    requires 0 < length <= 0x100_0000 && offset + n <= length
    ensures Selected(k, offset, n, length) <==> offset <= k < offset + n
  {
    if offset <= k < offset + n { assert Nth(offset, k - offset, length) == k; }
  }

  lemma FilledInRange(before: seq<Byte>, after: seq<Byte>, offset: nat, n: nat)
    requires FilledAt(before, after, offset, n) && |before| <= 0x100_0000 && offset + n <= |before|
    ensures after == Filled(before, offset, n)
  {
    forall k | 0 <= k < |before| ensures after[k] == Filled(before, offset, n)[k] {
      SelectedInRange(k, offset, n, |before|);
    }
  }

  lemma OverInRange(before: seq<Byte>, after: seq<Byte>, offset: nat, data: seq<Byte>)
    requires OverAt(before, after, offset, data) && |before| <= 0x100_0000 && offset + |data| <= |before|
    ensures after == Over(before, offset, data)
  {
    forall k | 0 <= k < |before| ensures after[k] == Over(before, offset, data)[k] {
      SelectedInRange(k, offset, |data|, |before|);
      if offset <= k < offset + |data| { assert Nth(offset, k - offset, |before|) == k; }
    }
  }

  /** Within a block or page, cells follow each other as addresses do. */
  lemma NthInRun(offset: nat, n: nat, e: nat, length: nat, unit: nat)
    requires IsUnit(unit) && 0 < length && length % unit == 0 && (offset + n) % unit + e < unit
    ensures Nth(offset, n + e, length) == Nth(offset, n, length) + e
  {
    CellRun(offset + n, e, length, unit);
    assert offset + n + e == offset + (n + e);
  }

  /** A block or part of a page more selects its cells in addition. */
  lemma SelectedMore(k: nat, offset: nat, n: nat, m: nat, length: nat, unit: nat)
    requires IsUnit(unit) && 0 < length && length % unit == 0 && (offset + n) % unit + m <= unit
    ensures var next := Nth(offset, n, length);
            Selected(k, offset, n + m, length) <==> Selected(k, offset, n, length) || next <= k < next + m
  {
    var next := Nth(offset, n, length);
    if next <= k < next + m {
      NthInRun(offset, n, k - next, length, unit);
      assert Nth(offset, n + (k - next), length) == k;
    }
    if d: nat :| d < n + m && Nth(offset, d, length) == k {
      if d >= n { NthInRun(offset, n, d - n, length, unit); }
    }
  }

  lemma FilledMore(before: seq<Byte>, was: seq<Byte>, after: seq<Byte>, offset: nat, n: nat, size: nat)
    requires FilledAt(before, was, offset, n) && IsBlockSize(size) && (offset + n) % size == 0 && |before| % size == 0
    requires var next := Nth(offset, n, |before|); next + size <= |was| && after == Filled(was, next, size)
    ensures FilledAt(before, after, offset, n + size)
  {
    forall k: nat | k < |before|
      ensures after[k] == if Selected(k, offset, n + size, |before|) then 0xFF else before[k]
    {
      SelectedMore(k, offset, n, size, |before|, size);
    }
  }

  lemma RemaindersApart(a: nat, n: nat)
    requires 0 < n < PAGE
    ensures a % PAGE != (a + n) % PAGE
  {
  }

  /** Addresses that are less than a page apart select different cells. */
  lemma PageApart(offset: nat, c: nat, d: nat, length: nat)
    requires c < d < c + PAGE && 0 < length && length % PAGE == 0
    ensures Nth(offset, c, length) != Nth(offset, d, length)
  {
    CellRun(offset + c, 0, length, PAGE);
    CellRun(offset + d, 0, length, PAGE);
    RemaindersApart(offset + c, d - c);
  }

  /** The cell for one more byte has not been programmed before. */
  lemma NotYetSelected(offset: nat, n: nat, d: nat, length: nat)
    requires n <= d < PAGE && 0 < length && length % PAGE == 0
    ensures !Selected(Nth(offset, d, length), offset, n, length)
  {
    forall c: nat | c < n ensures Nth(offset, c, length) != Nth(offset, d, length) {
      PageApart(offset, c, d, length);
    }
  }

  /** What becomes of the cell for byte d when n bytes were there and m more are programmed. */
  lemma OverMoreAt(before: seq<Byte>, was: seq<Byte>, after: seq<Byte>, offset: nat, data: seq<Byte>, more: seq<Byte>,
                   d: nat)
    requires OverAt(before, was, offset, data) && |data| + |more| <= PAGE && |before| % PAGE == 0
    requires (offset + |data|) % PAGE + |more| <= PAGE && d < |data| + |more|
    requires var next := Nth(offset, |data|, |before|);
             next + |more| <= |was| && after == Over(was, next, more)
    ensures var k := Nth(offset, d, |before|); after[k] == Programming(before[k], (data + more)[d])
  {
    var length, n := |before|, |data|;
    var next, k := Nth(offset, n, length), Nth(offset, d, length);
    if d < n {
      if next <= k < next + |more| {
        NthInRun(offset, n, k - next, length, PAGE);
        PageApart(offset, d, n + (k - next), length);
      }
    } else {
      NthInRun(offset, n, d - n, length, PAGE);
      NotYetSelected(offset, n, d, length);
    }
  }

  lemma OverMore(before: seq<Byte>, was: seq<Byte>, after: seq<Byte>, offset: nat, data: seq<Byte>, more: seq<Byte>)
    requires OverAt(before, was, offset, data) && |data| + |more| <= PAGE && |before| % PAGE == 0
    requires (offset + |data|) % PAGE + |more| <= PAGE
    requires var next := Nth(offset, |data|, |before|);
             next + |more| <= |was| && after == Over(was, next, more)
    ensures OverAt(before, after, offset, data + more)
  {
    forall d: nat | d < |data| + |more|
      ensures var k := Nth(offset, d, |before|); after[k] == Programming(before[k], (data + more)[d])
    {
      OverMoreAt(before, was, after, offset, data, more, d);
    }
    forall k: nat | k < |before| && !Selected(k, offset, |data| + |more|, |before|) ensures after[k] == before[k] {
      SelectedMore(k, offset, |data|, |more|, |before|, PAGE);
    }
  }

  /** No operation goes over the end of a page. */
  ghost predicate Paged(ops: seq<Operation>) {
    forall k :: 0 <= k < |ops| ==> ops[k].Programmed? && ops[k].start % PAGE + ops[k].count <= PAGE
  }

  /** An address in 32 bits. */
  function Wrapped(a: nat): Word { a % BASE }

  lemma WrappedAdvances(a: nat, n: nat)
    ensures (Wrapped(a) + n) % BASE == Wrapped(a + n)
  {
  }

  /** An address that has wrapped at 32 bits is as aligned as before and selects the same cell. */
  lemma Unwrapped(a: nat, unit: nat, length: nat)
    requires IsUnit(unit) && length > 0
    ensures Wrapped(a) % unit == a % unit && CellAt(Wrapped(a), length) == CellAt(a, length)
  {
    LowBits(a, BASE, unit, if unit == 0x100 then 0x100_0000 else if unit == 0x1000 then 0x10_0000 else 0x2_0000);
    CellOfWrapped(a, length);
  }

  /** An aligned address selects the first cell of a block. */
  lemma BlockStart(offset: nat, block: nat, length: nat)
    requires (block == 4 || block == 32) && offset % (block * 1024) == 0 && length > 0 && length % 0x8000 == 0
    ensures CellAt(offset, length) % (block * 1024) == 0
  {
    assert length % 0x1000 == 0;
    if block == 4 { CellRun(offset, 0, length, 0x1000); } else { CellRun(offset, 0, length, 0x8000); }
  }

  lemma PageStart(offset: nat, length: nat)
    requires length > 0 && length % 0x8000 == 0
    ensures CellAt(offset, length) % PAGE == offset % PAGE
  {
    assert length % 0x100 == 0;
    CellRun(offset, 0, length, 0x100);
  }

  lemma OneMoreOperation(before: seq<Operation>, log: seq<Operation>, op: Operation)
    requires before <= log
    ensures before <= log + [op] && (log + [op])[|before|..] == log[|before|..] + [op]
  {
  }

  lemma OnePageMore(before: seq<Operation>, log: seq<Operation>, op: Operation)
    requires before <= log && Paged(log[|before|..]) && op.Programmed? && op.start % PAGE + op.count <= PAGE
    ensures before <= log + [op] && Paged((log + [op])[|before|..])
  {
    OneMoreOperation(before, log, op);
  }

  lemma WholeBlocks(length: nat)
    requires length % 0x8000 == 0
    ensures length % 0x1000 == 0 && length % PAGE == 0
  {
    LowBits(length, 0x8000, 0x1000, 8);
    LowBits(length, 0x8000, PAGE, 128);
  }

  /** The first part of a range selects no cells but those of the range. */
  lemma SelectedByPart(offset: nat, n: nat, m: nat, length: nat)
    requires n <= m && length > 0
    ensures forall k: nat :: Selected(k, offset, n, length) ==> Selected(k, offset, m, length)
  {
    forall k: nat | Selected(k, offset, n, length) ensures Selected(k, offset, m, length) {
      var d: nat :| d < n && Nth(offset, d, length) == k;
    }
  }

  predicate IsBlockSize(size: nat) { size == 0x1000 || size == 0x8000 }

  lemma OneBlock(left: nat, done: nat, size: nat)
    requires IsBlockSize(size)
    ensures left != left % size <==> left >= size
    ensures (done + size) % size == done % size
  {
  }

  lemma NothingLeft(bytes: nat, sectors: nat, left: nat)
    requires bytes % 0x1000 == 0 && bytes == 0x1000 * sectors + left && left < 0x1000
    ensures left == 0
  {
  }

  /** The three bytes of a command are the low 24 bits of the address. */
  lemma AddressBytes(offset: nat)
    ensures 0x1_0000 * (offset / 0x1_0000 % 0x100) + 0x100 * (offset / 0x100 % 0x100) + offset % 0x100
         == offset % 0x100_0000
  {
    var low, middle, high, rest := offset % 0x100, offset / 0x100 % 0x100, offset / 0x1_0000 % 0x100, offset / 0x100_0000;
    NextByte(offset, 0x100);
    NextByte(offset, 0x1_0000);
    assert offset == 0x1_0000 * high + 0x100 * middle + low + rest * 0x100_0000;
    SameRemainder(0x1_0000 * high + 0x100 * middle + low, rest, 0x100_0000);
  }

  lemma NextByte(x: nat, unit: nat)
    requires unit == 0x100 || unit == 0x1_0000
    ensures x / unit == x / unit % 0x100 + 0x100 * (x / (0x100 * unit))
  {
    if unit == 0x100 {
      assert x / 0x100 / 0x100 == x / 0x1_0000;
    } else {
      assert x / 0x1_0000 / 0x100 == x / 0x100_0000;
    }
  }

  /** The driver's check of a range, on 32-bit words. */
  predicate OutOfRange(offset: Word, bytes: Word, flashSize: nat) { (offset + bytes) % BASE > flashSize }

  /** The check wrongly passes exactly the ranges whose sum wraps to at most the size of the flash, such as one sector
      right below 2^32; it never wrongly rejects one. */
  lemma OutOfRangeIsExact(offset: Word, bytes: Word, flashSize: nat)
    requires flashSize <= 0x100_0000
    ensures !OutOfRange(offset, bytes, flashSize) && offset + bytes > flashSize
        <==> BASE <= offset + bytes <= BASE + flashSize
    ensures OutOfRange(offset, bytes, flashSize) ==> offset + bytes > flashSize
    ensures !OutOfRange(0xFFFF_F000, 0x1000, flashSize) && 0xFFFF_F000 > flashSize
  {
  }

  class Driver {
    const chip: Chip
    const flashSize: nat
    const buf: array<Byte>

    ghost predicate Valid() {
      && chip.Valid() && flashSize <= chip.cells.Length && buf != chip.cells
      && buf.Length == SPI_FLASH_MAX_MESSAGE_SIZE
    }

    constructor (c: Chip, size: nat)
      requires c.Valid() && size <= c.cells.Length
      ensures Valid() && chip == c && flashSize == size && fresh(buf)
    {
      chip, flashSize := c, size;
      buf := new Byte[SPI_FLASH_MAX_MESSAGE_SIZE];
    }

    method WriteEnable() returns (rv: int)
      requires Valid()
      modifies chip, chip.cells
      ensures chip.cells[..] == old(chip.cells[..]) && chip.log == old(chip.log)
      ensures rv == EC_SUCCESS && !old(chip.busy) ==> !chip.busy && chip.writeEnabled
    {
      rv := chip.Transaction([SPI_FLASH_WRITE_ENABLE]);
    }

    /** Wait for the chip and let it be written. */
    method Prepare() returns (rv: int)
      requires Valid()
      modifies chip, chip.cells
      ensures chip.cells[..] == old(chip.cells[..]) && chip.log == old(chip.log)
      ensures rv == EC_SUCCESS ==> !chip.busy && chip.writeEnabled
    {
      rv := chip.Wait();
      if rv != EC_SUCCESS { return; }
      rv := WriteEnable();
    }

    method EraseBlock(offset: Word, block: nat) returns (rv: int)
      requires Valid()
      modifies chip, chip.cells
      ensures rv != EC_SUCCESS ==> chip.cells[..] == old(chip.cells[..]) && chip.log == old(chip.log)
      ensures rv == EC_SUCCESS ==> (block == 4 || block == 32) && offset % (block * 1024) == 0
      ensures rv == EC_SUCCESS ==>
                var at := CellAt(offset, chip.cells.Length);
                && at + block * 1024 <= chip.cells.Length
                && chip.cells[..] == Filled(old(chip.cells[..]), at, block * 1024)
                && chip.log == old(chip.log) + [Erased(at, block * 1024)]
    {
      if block != 4 && block != 32 { return EC_ERROR_INVAL; }
      if offset % (block * 1024) != 0 { return EC_ERROR_INVAL; }
      rv := Prepare();
      if rv != EC_SUCCESS { return; }
      var code := if block == 4 then SPI_FLASH_ERASE_4KB else SPI_FLASH_ERASE_32KB;
      AddressBytes(offset);
      BlockStart(offset, block, chip.cells.Length);
      rv := chip.Transaction([code, offset / 0x1_0000 % 0x100, offset / 0x100 % 0x100, offset % 0x100]);
    }

    /** The cells that the addresses from offset on select have been erased up to a point, by the operations since the
        log was before. */
    ghost predicate ErasedUpTo(cells: seq<Byte>, before: seq<Operation>, offset: nat, done: nat)
      reads chip, chip.cells
    {
      && FilledAt(cells, chip.cells[..], offset, done)
      && before <= chip.log && ErasedEnd(chip.log[|before|..], offset, |cells|) == offset + done
    }

    lemma NothingErased(offset: Word)
      requires Valid()
      ensures ErasedUpTo(chip.cells[..], chip.log, offset, 0) && Wrapped(offset + 0) == offset
    {
    }

    /** Erase whole blocks, as long as there are whole blocks left. */
    method EraseRun(offset: Word, bytes: Word, block: nat, ghost cells: seq<Byte>, ghost before: seq<Operation>,
                    ghost start: nat, ghost done: nat)
      returns (rv: int, next: Word, left: Word, ghost sectors: nat)
      requires Valid() && (block == 4 || block == 32)
      requires offset == Wrapped(start + done) && ErasedUpTo(cells, before, start, done)
      modifies chip, chip.cells
      ensures bytes == 0x1000 * sectors + left && (rv == EC_SUCCESS ==> left < block * 1024)
      ensures next == Wrapped(start + done + (bytes - left)) && ErasedUpTo(cells, before, start, done + (bytes - left))
    {
      next, left, sectors := offset, bytes, 0;
      var size := block * 1024;
      while left != left % size
        invariant bytes == 0x1000 * sectors + left
        invariant next == Wrapped(start + done + (bytes - left)) && ErasedUpTo(cells, before, start, done + (bytes - left))
        decreases left
      {
        ghost var was := left;
        rv, next, left := EraseOne(next, left, block, cells, before, start, done + (bytes - left));
        assert done + (bytes - was) + (was - left) == done + (bytes - left);
        if rv != EC_SUCCESS { return; }
        sectors := sectors + block / 4;
      }
      OneBlock(left, 0, size);
      rv := EC_SUCCESS;
    }

    method EraseOne(offset: Word, bytes: Word, block: nat, ghost cells: seq<Byte>, ghost before: seq<Operation>,
                    ghost start: nat, ghost done: nat)
      returns (rv: int, next: Word, left: Word)
      requires Valid() && (block == 4 || block == 32) && bytes != bytes % (block * 1024)
      requires offset == Wrapped(start + done) && ErasedUpTo(cells, before, start, done)
      modifies chip, chip.cells
      ensures left == if rv == EC_SUCCESS then bytes - block * 1024 else bytes
      ensures next == Wrapped(start + done + (bytes - left)) && ErasedUpTo(cells, before, start, done + (bytes - left))
    {
      var size := block * 1024;
      OneBlock(bytes, 0, size);
      next, left := offset, bytes;
      ghost var was, log := chip.cells[..], chip.log;
      rv := EraseBlock(offset, block);
      if rv != EC_SUCCESS { return; }
      BlockErased(cells, before, start, done, size, was, log);
      left := bytes - size;
      WrappedAdvances(start + done, size);
      next := (offset + size) % BASE;
    }

    lemma BlockErased(cells: seq<Byte>, before: seq<Operation>, start: nat, done: nat, size: nat, was: seq<Byte>,
                      log: seq<Operation>)
      requires Valid() && FilledAt(cells, was, start, done) && |was| == chip.cells.Length
      requires IsBlockSize(size) && Wrapped(start + done) % size == 0
      requires before <= log && ErasedEnd(log[|before|..], start, |cells|) == start + done
      requires var at := CellAt(Wrapped(start + done), |cells|);
               && at + size <= |was| && chip.cells[..] == Filled(was, at, size)
               && chip.log == log + [Erased(at, size)]
      ensures ErasedUpTo(cells, before, start, done + size)
    {
      Unwrapped(start + done, size, |cells|);
      WholeBlocks(|cells|);
      FilledMore(cells, was, chip.cells[..], start, done, size);
      OneMoreBlock(log[|before|..], start, start + done, size, |cells|);
      OneMoreOperation(before, log, Erased(CellAt(start + done, |cells|), size));
    }

    /**
     * Erase a range of whole sectors. For every range that passes the check, also one whose sum wraps, exactly the cells
     * that its addresses select are erased.
     */
    method Erase(offset: Word, bytes: Word) returns (rv: int)
      requires Valid()
      modifies chip, chip.cells
      ensures OutOfRange(offset, bytes, flashSize) || offset % 4096 != 0 || bytes % 4096 != 0 ==>
                rv == EC_ERROR_INVAL && chip.cells[..] == old(chip.cells[..])
      ensures forall k: nat :: k < chip.cells.Length && !Selected(k, offset, bytes, chip.cells.Length) ==>
                chip.cells[k] == old(chip.cells[k])
      ensures rv == EC_SUCCESS ==> ErasedUpTo(old(chip.cells[..]), old(chip.log), offset, bytes)
      ensures offset + bytes < BASE ==> Within(old(chip.cells[..]), chip.cells[..], offset, bytes)
      ensures offset + bytes < BASE && rv == EC_SUCCESS ==>
                offset + bytes <= flashSize && chip.cells[..] == Filled(old(chip.cells[..]), offset, bytes)
    {
      if (offset + bytes) % BASE > flashSize { return EC_ERROR_INVAL; }
      if offset % 4096 != 0 || bytes % 4096 != 0 { return EC_ERROR_INVAL; }
      ghost var cells, done := chip.cells[..], 0;
      rv, done := EraseRange(offset, bytes);
      SelectedByPart(offset, done, bytes, chip.cells.Length);
      if offset + bytes < BASE { FilledInRange(cells, chip.cells[..], offset, done); }
    }

    /** Blocks first, when the range starts with one, and sectors for the rest. */
    method EraseRange(offset: Word, bytes: Word) returns (rv: int, ghost done: nat)
      requires Valid() && bytes % 4096 == 0
      modifies chip, chip.cells
      ensures done <= bytes && ErasedUpTo(old(chip.cells[..]), old(chip.log), offset, done)
      ensures rv == EC_SUCCESS ==> done == bytes
    {
      ghost var cells, log := chip.cells[..], chip.log;
      NothingErased(offset);
      var next, left := offset, bytes;
      ghost var large, small := 0, 0;
      done := 0;
      if offset % (32 * 1024) == 0 {
        rv, next, left, large := EraseRun(next, left, 32, cells, log, offset, done);
        done := bytes - left;
        if rv != EC_SUCCESS { return; }
      }
      rv, next, left, small := EraseRun(next, left, 4, cells, log, offset, done);
      done := bytes - left;
      if rv == EC_SUCCESS { NothingLeft(bytes, large + small, left); }
    }

    /** The cells that the addresses from offset on select have been programmed with the data, within pages. */
    ghost predicate WrittenUpTo(cells: seq<Byte>, before: seq<Operation>, offset: nat, data: seq<Byte>)
      reads chip, chip.cells
    {
      OverAt(cells, chip.cells[..], offset, data) && before <= chip.log && Paged(chip.log[|before|..])
    }

    lemma NothingWritten(offset: nat)
      requires Valid()
      ensures WrittenUpTo(chip.cells[..], chip.log, offset, [])
    {
    }

    /** Send one page program command through the driver's buffer. */
    method ProgramPage(offset: Word, data: seq<Byte>) returns (rv: int)
      requires Valid() && |data| <= SPI_FLASH_MAX_WRITE_SIZE
      modifies chip, chip.cells, buf
      ensures rv != EC_SUCCESS ==> chip.cells[..] == old(chip.cells[..]) && chip.log == old(chip.log)
      ensures rv == EC_SUCCESS && offset % PAGE + |data| <= PAGE ==>
                var at := CellAt(offset, chip.cells.Length);
                && at % PAGE + |data| <= PAGE && at + |data| <= chip.cells.Length
                && chip.cells[..] == Over(old(chip.cells[..]), at, data)
                && chip.log == old(chip.log) + [Programmed(at, |data|)]
    {
      rv := Prepare();
      if rv != EC_SUCCESS { return; }
      FillBuffer(offset, data);
      AddressBytes(offset);
      PageStart(offset, chip.cells.Length);
      var tx := buf[..4 + |data|];
      assert tx[4..] == data;
      ghost var cells := chip.cells[..];
      rv := chip.Transaction(tx);
      if rv == EC_SUCCESS && offset % PAGE + |data| <= PAGE {
        BurntInPage(cells, CellAt(offset, chip.cells.Length), data);
      }
    }

    method FillBuffer(offset: Word, data: seq<Byte>)
      requires Valid() && |data| <= SPI_FLASH_MAX_WRITE_SIZE
      modifies buf
      ensures buf[4..4 + |data|] == data && buf[0] == SPI_FLASH_PAGE_PRGRM
      ensures buf[1] == offset / 0x1_0000 % 0x100 && buf[2] == offset / 0x100 % 0x100 && buf[3] == offset % 0x100
    {
      MemCpy(buf, 4, data);
      assert buf[4..4 + |data|] == data;
      buf[0] := SPI_FLASH_PAGE_PRGRM;
      buf[1] := offset / 0x1_0000 % 0x100;
      buf[2] := offset / 0x100 % 0x100;
      buf[3] := offset % 0x100;
    }

    /**
     * Program a range, page by page; also one whose sum wraps is programmed where its addresses select. With no bytes to
     * write, the result is what happens to be on the stack.
     */
    method Write(offset: Word, bytes: Word, data: seq<Byte>) returns (rv: int)
      requires Valid() && |data| == bytes
      modifies chip, chip.cells, buf
      ensures OutOfRange(offset, bytes, flashSize) || bytes > SPI_FLASH_MAX_WRITE_SIZE ==>
                rv == EC_ERROR_INVAL && chip.cells[..] == old(chip.cells[..])
      ensures forall k: nat :: k < chip.cells.Length && !Selected(k, offset, bytes, chip.cells.Length) ==>
                chip.cells[k] == old(chip.cells[k])
      ensures rv == EC_SUCCESS ==> WrittenUpTo(old(chip.cells[..]), old(chip.log), offset, data)
      ensures offset + bytes < BASE ==> Within(old(chip.cells[..]), chip.cells[..], offset, bytes)
      ensures offset + bytes < BASE && rv == EC_SUCCESS ==>
                offset + bytes <= flashSize && chip.cells[..] == Over(old(chip.cells[..]), offset, data)
    {
      if (offset + bytes) % BASE > flashSize || bytes > SPI_FLASH_MAX_WRITE_SIZE { return EC_ERROR_INVAL; }
      ghost var cells, done := chip.cells[..], 0;
      rv, done := WritePages(offset, bytes, data);
      SelectedByPart(offset, done, bytes, chip.cells.Length);
      if offset + bytes < BASE {
        assert data[..|data|] == data;
        OverInRange(cells, chip.cells[..], offset, data[..done]);
      }
    }

    method WritePages(offset: Word, bytes: Word, data: seq<Byte>) returns (rv: int, ghost done: nat)
      requires Valid() && |data| == bytes <= SPI_FLASH_MAX_WRITE_SIZE
      modifies chip, chip.cells, buf
      ensures done <= bytes && WrittenUpTo(old(chip.cells[..]), old(chip.log), offset, data[..done])
      ensures rv == EC_SUCCESS ==> done == bytes
    {
      ghost var cells, log := chip.cells[..], chip.log;
      NothingWritten(offset);
      var next: Word, left: Word, i: nat := offset, bytes, 0;
      rv := *;
      while left > 0
        invariant left + i == bytes && next == Wrapped(offset + i) && WrittenUpTo(cells, log, offset, data[..i])
        decreases left
      {
        var writeSize := WriteSize(next, left);
        rv := WriteOne(next, data, i, writeSize, cells, log, offset);
        if rv != EC_SUCCESS { return rv, i; }
        WrappedAdvances(offset + i, writeSize);
        i := i + writeSize;
        next := (next + writeSize) % BASE;
        left := left - writeSize;
      }
      done := i;
    }

    method WriteOne(next: Word, data: seq<Byte>, i: nat, n: nat, ghost cells: seq<Byte>, ghost before: seq<Operation>,
                    ghost offset: nat)
      returns (rv: int)
      requires Valid() && i + n <= |data| <= PAGE && 0 < n && next % PAGE + n <= PAGE
      requires next == Wrapped(offset + i) && WrittenUpTo(cells, before, offset, data[..i])
      modifies chip, chip.cells, buf
      ensures WrittenUpTo(cells, before, offset, data[..if rv == EC_SUCCESS then i + n else i])
    {
      ghost var was, log := chip.cells[..], chip.log;
      rv := ProgramPage(next, data[i..i + n]);
      if rv == EC_SUCCESS { PageWritten(cells, before, offset, data, i, n, was, log); }
    }

    /** Up to the end of the page. */
    static function WriteSize(offset: Word, bytes: Word): (n: Word)
      requires 0 < bytes
      ensures 0 < n <= bytes && n <= SPI_FLASH_MAX_WRITE_SIZE && offset % PAGE + n <= PAGE
    {
      var room := SPI_FLASH_MAX_WRITE_SIZE - offset % SPI_FLASH_MAX_WRITE_SIZE;
      if bytes < room then bytes else room
    }

    lemma PageWritten(cells: seq<Byte>, before: seq<Operation>, offset: nat, data: seq<Byte>, i: nat, n: nat,
                      was: seq<Byte>, log: seq<Operation>)
      requires Valid() && i + n <= |data| <= PAGE && |was| == chip.cells.Length && OverAt(cells, was, offset, data[..i])
      requires Wrapped(offset + i) % PAGE + n <= PAGE && before <= log && Paged(log[|before|..])
      requires var at := CellAt(Wrapped(offset + i), |cells|);
               && at % PAGE + n <= PAGE && at + n <= |was| && chip.cells[..] == Over(was, at, data[i..i + n])
               && chip.log == log + [Programmed(at, n)]
      ensures WrittenUpTo(cells, before, offset, data[..i + n])
    {
      Unwrapped(offset + i, PAGE, |cells|);
      WholeBlocks(|cells|);
      OverMore(cells, was, chip.cells[..], offset, data[..i], data[i..i + n]);
      assert data[..i] + data[i..i + n] == data[..i + n];
      OnePageMore(before, log, Programmed(CellAt(Wrapped(offset + i), |cells|), n));
    }

    /** Erasing a range and writing into it stores the data there, leaves ones in the rest of the range, and does not
        touch anything else. */
    method EraseAndWrite(offset: Word, bytes: Word, at: Word, data: seq<Byte>) returns (ok: bool)
      requires Valid() && offset + bytes < BASE && 0 < |data| && offset <= at && at + |data| <= offset + bytes
      modifies chip, chip.cells, buf
      ensures Within(old(chip.cells[..]), chip.cells[..], offset, bytes)
      ensures ok ==> forall k :: offset <= k < offset + bytes && k < chip.cells.Length ==>
                       chip.cells[k] == if at <= k < at + |data| then data[k - at] else 0xFF
    {
      var rv := Erase(offset, bytes);
      if rv != EC_SUCCESS { return false; }
      rv := Write(at, |data|, data);
      ok := rv == EC_SUCCESS;
    }
  }

  /** Nothing but the bytes of a range has changed. */
  ghost predicate Within(before: seq<Byte>, after: seq<Byte>, offset: nat, bytes: nat) {
    |after| == |before| && forall k :: 0 <= k < |before| && !(offset <= k < offset + bytes) ==> after[k] == before[k]
  }
}
