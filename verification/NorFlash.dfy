/** A NOR flash chip on a SPI bus: erased in blocks to ones, programmed in pages by clearing bits. */
module NorFlash {
  import opened ModArith
  import opened Bits
  import opened Words

  const SPI_FLASH_WRITE_ENABLE: Byte := 0x06
  const SPI_FLASH_ERASE_4KB: Byte := 0x20
  const SPI_FLASH_ERASE_32KB: Byte := 0x52
  const SPI_FLASH_PAGE_PRGRM: Byte := 0x02

  const EC_SUCCESS := 0
  const EC_ERROR_TIMEOUT := 4

  const PAGE := 256

  /** Operations the chip has carried out. */
  datatype Operation = Erased(base: nat, size: nat) | Programmed(start: nat, count: nat)

  /** Programming can only clear bits. */
  function Programming(was: Byte, value: Byte): (b: Byte)
    ensures was == 0xFF ==> b == value
  {
    ByteAnd(value, was);
    And(value, was)
  }

  lemma {:induction false} ByteAnd(value: Byte, was: Byte)
    ensures And(value, was) <= value && (was == 0xFF ==> And(value, was) == value)
  {
    AndIsLess(value, was);
    assert Pow(2, 8) == 256;
    if was == 0xFF { AndMask(value, was, 8); }
  }

  lemma {:induction false} AndMask(x: nat, mask: nat, n: nat)
    requires mask + 1 == Pow(2, n) && x <= mask
    ensures And(x, mask) == x
  {
    MaskIsRemainder(x, n);
    SmallRemainder(x, mask + 1);
  }

  lemma SmallRemainder(x: nat, n: nat)
    requires x < n
    ensures x % n == x
  {
    CongRefl(x, n);
    CongRemainder(x, x, n);
  }

  lemma {:induction false} AndIsLess(x: nat, y: nat)
    ensures And(x, y) <= x
  {
    if x != 0 && y != 0 { AndIsLess(x / 2, y / 2); }
  }

  /** A bit is one afterwards exactly when it was and the data have it. */
  lemma ProgrammingClearsBits(was: Byte, value: Byte, i: nat)
    ensures BitAt(Programming(was, value), i) == (BitAt(was, i) && BitAt(value, i))
  {
    AndAt(value, was, i);
  }

  class Chip {
    const cells: array<Byte>
    var busy: bool
    var writeEnabled: bool
    ghost var log: seq<Operation>

    ghost predicate Valid() {
      0 < cells.Length <= 0x100_0000 && cells.Length % 0x8000 == 0
    }

    constructor (size: nat)
      requires 0 < size <= 0x100_0000 && size % 0x8000 == 0
      ensures Valid() && cells.Length == size && fresh(cells)
    {
      cells := new Byte[size];
      busy, writeEnabled := false, false;
      log := [];
    }

    /** Poll the busy bit, until the chip is ready or the time is up. */
    method Wait() returns (rv: int)
      modifies this`busy
      ensures rv == EC_SUCCESS || rv == EC_ERROR_TIMEOUT
      ensures rv == EC_SUCCESS ==> !busy
    {
      var ready: bool := *;
      if ready { busy := false; return EC_SUCCESS; }
      return EC_ERROR_TIMEOUT;
    }

    /** One transaction: the bytes sent are a command. The bus may fail, and then nothing happens. A command is ignored
        while the chip is busy, and a change of the cells also unless writing was enabled just before. */
    method Transaction(tx: seq<Byte>) returns (rv: int)
      requires Valid() && |tx| > 0
      requires tx[0] == SPI_FLASH_WRITE_ENABLE || |tx| >= 4
      modifies this, cells
      ensures Valid()
      ensures rv != EC_SUCCESS ==> cells[..] == old(cells[..]) && log == old(log)
      ensures rv == EC_SUCCESS && !old(busy) && tx[0] == SPI_FLASH_WRITE_ENABLE ==>
                !busy && writeEnabled && cells[..] == old(cells[..]) && log == old(log)
      ensures rv == EC_SUCCESS && !old(busy) && old(writeEnabled) && IsErase(tx) ==>
                var base, size := Base(tx, EraseSize(tx)), EraseSize(tx);
                && base + size <= cells.Length && cells[..] == Filled(old(cells[..]), base, size)
                && log == old(log) + [Erased(base, size)]
      ensures rv == EC_SUCCESS && !old(busy) && old(writeEnabled) && tx[0] == SPI_FLASH_PAGE_PRGRM ==>
                var start := Place(tx);
                && log == old(log) + [Programmed(start, |tx| - 4)]
                && start - start % PAGE + PAGE <= cells.Length && cells[..] == Burnt(old(cells[..]), start, tx[4..])
      ensures !IsErase(tx) && tx[0] != SPI_FLASH_PAGE_PRGRM ==> cells[..] == old(cells[..]) && log == old(log)
    {
      var works: bool := *;
      if !works { return 1; }
      rv := EC_SUCCESS;
      if busy { return; }
      if tx[0] == SPI_FLASH_WRITE_ENABLE {
        writeEnabled := true;
      } else if IsErase(tx) && writeEnabled {
        Erase(Base(tx, EraseSize(tx)), EraseSize(tx));
        busy, writeEnabled := true, false;
      } else if tx[0] == SPI_FLASH_PAGE_PRGRM && writeEnabled {
        Program(Place(tx), tx[4..]);
        busy, writeEnabled := true, false;
      }
    }

    static predicate IsErase(tx: seq<Byte>)
      requires |tx| > 0
    {
      tx[0] == SPI_FLASH_ERASE_4KB || tx[0] == SPI_FLASH_ERASE_32KB
    }

    static function EraseSize(tx: seq<Byte>): nat
      requires |tx| > 0
    {
      if tx[0] == SPI_FLASH_ERASE_4KB then 0x1000 else 0x8000
    }

    /** The 24-bit address of a command. */
    static function Address(tx: seq<Byte>): nat
      requires |tx| >= 4
    {
      0x1_0000 * tx[1] as int + 0x100 * tx[2] as int + tx[3] as int
    }

    /** The block that an address is in. */
    function Base(tx: seq<Byte>, size: nat): (base: nat)
      requires Valid() && |tx| >= 4 && (size == 0x1000 || size == 0x8000)
      ensures base + size <= cells.Length && base <= Place(tx) < base + size && base % 0x1000 == 0
      ensures size == 0x8000 ==> base % 0x8000 == 0
      ensures Place(tx) % 0x8000 == 0 || (size == 0x1000 && Place(tx) % 0x1000 == 0) ==> base == Place(tx)
    {
      BlockFits(Place(tx), cells.Length);
      if size == 0x1000 then Place(tx) - Place(tx) % 0x1000 else Place(tx) - Place(tx) % 0x8000
    }

    /** The cell that an address stands for. */
    function Place(tx: seq<Byte>): (a: nat)
      requires Valid() && |tx| >= 4
      ensures a < cells.Length && (Address(tx) < cells.Length ==> a == Address(tx))
    {
      Reduced(Address(tx), cells.Length)
    }

    /** All cells of a block to ones. */
    method Erase(base: nat, size: nat)
      requires base + size <= cells.Length
      modifies cells, this`log
      ensures cells[..] == Filled(old(cells[..]), base, size) && log == old(log) + [Erased(base, size)]
    {
      var i := 0;
      while i < size
        modifies cells
        invariant 0 <= i <= size
        invariant forall k :: 0 <= k < cells.Length ==> cells[k] == if base <= k < base + i then 0xFF else old(cells[k])
      {
        cells[base + i] := 0xFF;
        i := i + 1;
      }
      log := log + [Erased(base, size)];
    }

    /** Program bytes from start, going back to the start of the page at its end. */
    method Program(start: nat, data: seq<Byte>)
      requires Valid() && start < cells.Length
      modifies cells, this`log
      ensures log == old(log) + [Programmed(start, |data|)] && start - start % PAGE + PAGE <= cells.Length
      ensures cells[..] == Burnt(old(cells[..]), start, data)
    {
      PageFits(start, cells.Length);
      var page, first := start - start % PAGE, start % PAGE;
      var i := 0;
      assert data[..i] == [];
      while i < |data|
        modifies cells
        invariant 0 <= i <= |data| && cells[..] == Burnt(old(cells[..]), start, data[..i])
      {
        var at := page + (first + i) % PAGE;
        assert data[..i + 1][..i] == data[..i];
        cells[at] := Programming(cells[at], data[i]);
        i := i + 1;
      }
      assert data[..i] == data;
      log := log + [Programmed(start, |data|)];
    }
  }

  lemma PageFits(start: nat, length: nat)
    requires start < length && length % 0x8000 == 0
    ensures start - start % PAGE + PAGE <= length
  {
    assert length % 0x100 == 0;
  }

  /** a modulo n. */
  function Reduced(a: nat, n: nat): (r: nat)
    requires n > 0
    ensures r < n && (a < n ==> r == a)
  {
    if a < n then a else Reduced(a - n, n)
  }

  /** The cell that an address selects: the chip sees 24 bits of it, and repeats beyond its end. */
  function CellAt(address: nat, length: nat): (k: nat)
    requires length > 0
    ensures k < length && (address < length <= 0x100_0000 ==> k == address)
  {
    Reduced(address % 0x100_0000, length)
  }

  predicate IsUnit(unit: nat) { unit == 0x100 || unit == 0x1000 || unit == 0x8000 }

  /** Multiples of n more or less do not change the remainder. */
  lemma SameRemainder(a: int, k: int, n: nat)
    requires n > 0
    ensures (a + k * n) % n == a % n
  {
    var q, r := a / n, a % n;
    assert a == q * n + r;
    MulDist(q, k, n);
    CongIntro(a + k * n, r, q + k, n);
    CongRemainder(a + k * n, r, n);
  }

  lemma OneTurnBack(a: nat, e: nat, length: nat, unit: nat)
    requires unit > 0 && length % unit == 0 && a % unit + e < unit
    ensures a < length ==> a + e < length
    ensures a >= length ==> (a - length) % unit == a % unit
  {
    var q, k := a / unit, length / unit;
    assert a == q * unit + a % unit && length == k * unit;
    MulDist(q, 1, unit);
    if a < length {
      if k <= q { MulMono(k, q, unit); }
      MulMono(q + 1, k, unit);
    } else {
      assert a - length == a + (-k) * unit;
      SameRemainder(a, -k, unit);
    }
  }

  lemma {:induction false} ReducedRun(a: nat, e: nat, length: nat, unit: nat)
    requires IsUnit(unit) && length > 0 && length % unit == 0 && a % unit + e < unit
    ensures Reduced(a + e, length) == Reduced(a, length) + e && Reduced(a, length) % unit == a % unit
  {
    OneTurnBack(a, e, length, unit);
    if a >= length { ReducedRun(a - length, e, length, unit); }
  }

  /** The remainder by a multiple of unit has the same remainder by unit. */
  lemma LowBits(a: nat, n: nat, unit: nat, m: nat)
    requires unit > 0 && n == unit * m > 0
    ensures a % n % unit == a % unit
  {
    var q, r := a / n, a % n;
    assert a == q * n + r;
    assert q * n == (q * m) * unit;
    SameRemainder(r, q * m, unit);
  }

  lemma AddressBits(a: nat, e: nat, unit: nat)
    requires IsUnit(unit) && a % unit + e < unit
    ensures (a + e) % 0x100_0000 == a % 0x100_0000 + e && a % 0x100_0000 % unit == a % unit
  {
    var r := a % 0x100_0000;
    LowBits(a, 0x100_0000, unit, if unit == 0x100 then 0x1_0000 else if unit == 0x1000 then 0x1000 else 0x200);
    NoCarry(a, r, e, unit);
  }

  lemma NoCarry(a: nat, r: nat, e: nat, unit: nat)
    requires IsUnit(unit) && r == a % 0x100_0000 && r % unit + e < unit
    ensures (a + e) % 0x100_0000 == r + e
  {
    var k := if unit == 0x100 then 0x1_0000 else if unit == 0x1000 then 0x1000 else 0x200;
    var q := r / unit;
    assert r == q * unit + r % unit;
    assert q < k by { if q >= k { MulMono(k, q, unit); } }
    MulMono(q + 1, k, unit);
    assert a + e == (r + e) + (a / 0x100_0000) * 0x100_0000;
  }

  /** Within a page or block, cells follow each other as addresses do. */
  lemma CellRun(a: nat, e: nat, length: nat, unit: nat)
    requires IsUnit(unit) && length > 0 && length % unit == 0 && a % unit + e < unit
    ensures CellAt(a + e, length) == CellAt(a, length) + e && CellAt(a, length) % unit == a % unit
  {
    AddressBits(a, e, unit);
    ReducedRun(a % 0x100_0000, e, length, unit);
  }

  /** The chip does not see whether an address has wrapped at 32 bits. */
  lemma CellOfWrapped(a: nat, length: nat)
    requires length > 0
    ensures CellAt(a % BASE, length) == CellAt(a, length)
  {
    assert a % BASE % 0x100_0000 == a % 0x100_0000;
  }

  lemma BlockFits(a: nat, length: nat)
    requires a < length && length % 0x8000 == 0
    ensures a - a % 0x1000 + 0x1000 <= length && a - a % 0x8000 + 0x8000 <= length
    ensures (a - a % 0x1000) % 0x1000 == 0 && (a - a % 0x8000) % 0x8000 == 0 && (a - a % 0x8000) % 0x1000 == 0
  {
    var q, n := a / 0x8000, length / 0x8000;
    BlockOf(a, q, n, length);
    var r := a / 0x1000;
    SectorOf(a, r, 8 * n, length);
  }

  lemma BlockOf(a: nat, q: nat, n: nat, length: nat)
    requires a < length == 0x8000 * n && q == a / 0x8000
    ensures a - a % 0x8000 == 0x8000 * q && q < n
    ensures (a - a % 0x8000) % 0x8000 == 0 && (a - a % 0x8000) % 0x1000 == 0
  {
    assert a % 0x8000 == a - 0x8000 * q;
    assert 0x8000 * q == 0x1000 * (8 * q);
    CongIntro(0x8000 * q, 0, q, 0x8000);
    CongRemainder(0x8000 * q, 0, 0x8000);
    CongIntro(0x8000 * q, 0, 8 * q, 0x1000);
    CongRemainder(0x8000 * q, 0, 0x1000);
  }

  lemma SectorOf(a: nat, r: nat, m: nat, length: nat)
    requires a < length == 0x1000 * m && r == a / 0x1000
    ensures a - a % 0x1000 == 0x1000 * r && r < m && (a - a % 0x1000) % 0x1000 == 0
  {
  }

  /** s with size elements from base on erased. */
  function Filled(s: seq<Byte>, base: nat, size: nat): (r: seq<Byte>)
    requires base + size <= |s|
    ensures |r| == |s| && forall k :: 0 <= k < |s| ==> r[k] == if base <= k < base + size then 0xFF else s[k]
  {
    seq(|s|, k requires 0 <= k < |s| => if base <= k < base + size then 0xFF else s[k])
  }

  /** s with data programmed into the page of start, from there on and again from the start of the page at its end. */
  function Burnt(s: seq<Byte>, start: nat, data: seq<Byte>): (r: seq<Byte>)
    requires start - start % PAGE + PAGE <= |s|
    ensures |r| == |s|
  {
    if data == [] then s
    else
      var n := |data| - 1;
      var r, at := Burnt(s, start, data[..n]), start - start % PAGE + (start % PAGE + n) % PAGE;
      r[at := Programming(r[at], data[n])]
  }

  /** How far into the data the byte for cell k comes. */
  function Turn(start: nat, k: nat): nat { (k - start) % PAGE }

  /** A page or less of data: each cell of the page takes the byte that comes to it, and no other cell changes. */
  lemma {:induction false} BurntAt(s: seq<Byte>, start: nat, data: seq<Byte>, k: nat)
    requires start - start % PAGE + PAGE <= |s| && |data| <= PAGE && k < |s|
    ensures Burnt(s, start, data)[k]
         == if k / PAGE == start / PAGE && Turn(start, k) < |data| then Programming(s[k], data[Turn(start, k)]) else s[k]
  {
    if data != [] {
      var n := |data| - 1;
      BurntAt(s, start, data[..n], k);
      PlaceInPage(start, n, k);
    }
  }

  lemma PlaceInPage(start: nat, n: nat, k: nat)
    requires n < PAGE
    ensures k == start - start % PAGE + (start % PAGE + n) % PAGE <==> k / PAGE == start / PAGE && Turn(start, k) == n
  {
  }

  /** Data that do not reach the end of the page are programmed one after the other. */
  lemma BurntInPage(s: seq<Byte>, start: nat, data: seq<Byte>)
    requires start - start % PAGE + PAGE <= |s| && start % PAGE + |data| <= PAGE
    ensures Burnt(s, start, data) == Over(s, start, data)
  {
    forall k | 0 <= k < |s| ensures Burnt(s, start, data)[k] == Over(s, start, data)[k] {
      BurntAt(s, start, data, k);
      ReachedInPage(start, |data|, k);
    }
  }

  lemma ReachedInPage(start: nat, n: nat, k: nat)
    requires start % PAGE + n <= PAGE
    ensures start <= k < start + n <==> k / PAGE == start / PAGE && Turn(start, k) < n
    ensures start <= k < start + n ==> Turn(start, k) == k - start
  {
  }

  /** s with data programmed from start on. */
  function Over(s: seq<Byte>, start: nat, data: seq<Byte>): (r: seq<Byte>)
    requires start + |data| <= |s|
    ensures |r| == |s|
    ensures forall k :: 0 <= k < |s| ==>
              r[k] == if start <= k < start + |data| then Programming(s[k], data[k - start]) else s[k]
  {
    seq(|s|, k requires 0 <= k < |s| => if start <= k < start + |data| then Programming(s[k], data[k - start]) else s[k])
  }
}
