/** USB Power Delivery packets on the wire (common/usb_pd_tcpc.c, with the symbol writer of chip/stm32/usb_pd_phy.c). */
module UsbPdPacket {
  import opened ModArith
  import opened Bits
  import opened Words

  type Short = x: int | 0 <= x < 0x1_0000

  const PD_SYNC1 := 0x18
  const PD_SYNC2 := 0x11
  const PD_SYNC3 := 0x06
  const PD_EOP := 0x0D

  const PD_RX_ERR_INVAL := -1
  const PD_RX_ERR_CRC := -3
  const PD_RX_ERR_UNSUPPORTED_SOP := -5

  const PD_SOP := PD_SYNC1 + 32 * PD_SYNC1 + 1024 * PD_SYNC1 + 32768 * PD_SYNC2
  const PD_SOP_PRIME := PD_SYNC1 + 32 * PD_SYNC1 + 1024 * PD_SYNC3 + 32768 * PD_SYNC3
  const PD_SOP_PRIME_PRIME := PD_SYNC1 + 32 * PD_SYNC3 + 1024 * PD_SYNC1 + 32768 * PD_SYNC3

  type Code = x: int | 0 <= x < 32

  /** The 4b/5b code of a nibble. */
  function Encode(n: nat): Code
    requires n < 16
  {
    match n
    case 0 => 0x1E case 1 => 0x09 case 2 => 0x14 case 3 => 0x15
    case 4 => 0x0A case 5 => 0x0B case 6 => 0x0E case 7 => 0x0F
    case 8 => 0x12 case 9 => 0x13 case 10 => 0x16 case 11 => 0x17
    case 12 => 0x1A case 13 => 0x1B case 14 => 0x1C case _ => 0x1D
  }

  /** The nibble of a five-bit code, or a number from 0x10 up for K-codes and errors. */
  function Decode(c: Code): nat {
    match c
    case 0x07 => 0x13 case 0x09 => 0x01 case 0x0A => 0x04 case 0x0B => 0x05
    case 0x0D => 0x15 case 0x0E => 0x06 case 0x0F => 0x07 case 0x11 => 0x12
    case 0x12 => 0x08 case 0x13 => 0x09 case 0x14 => 0x02 case 0x15 => 0x03
    case 0x16 => 0x0A case 0x17 => 0x0B case 0x18 => 0x11 case 0x19 => 0x14
    case 0x1A => 0x0C case 0x1B => 0x0D case 0x1C => 0x0E case 0x1D => 0x0F
    case 0x1E => 0x00
    case _ => 0x10
  }

  lemma {:induction false} TablesInvert(n: nat, c: Code)
    requires n < 16
    ensures Decode(Encode(n)) == n
    ensures Decode(c) < 16 <==> exists m :: 0 <= m < 16 && Encode(m) == c
    ensures Decode(c) < 16 ==> Encode(Decode(c)) == c
  {
    assert Decode(c) < 16 ==> Encode(Decode(c)) == c;
    forall m | 0 <= m < 16 ensures Decode(Encode(m)) == m {}
  }

  /** A code as the standard writes it, highest bit first. */
  function Spelled(c: Code): (s: string)
    ensures |s| == 5
  {
    [Digit1(c / 16), Digit1(c / 8 % 2), Digit1(c / 4 % 2), Digit1(c / 2 % 2), Digit1(c % 2)]
  }

  function Digit1(b: nat): char { if b == 0 then '0' else '1' }

  /** The codes are those of the 4b5b table of the standard (section 5.3). */
  lemma CodesAreStandard(n: nat)
    requires n < 16
    ensures Spelled(Encode(n)) == ["11110", "01001", "10100", "10101", "01010", "01011", "01110", "01111",
                                   "10010", "10011", "10110", "10111", "11010", "11011", "11100", "11101"][n]
    ensures Spelled(PD_SYNC1) == "11000" && Spelled(PD_SYNC2) == "10001" && Spelled(PD_SYNC3) == "00110"
    ensures Spelled(PD_EOP) == "01101"
  {
  }

  // ---------------------------------------------------------------- line code

  predicate Bit(x: nat, k: nat)
    requires k < 5
  {
    (if k == 0 then x else if k == 1 then x / 2 else if k == 2 then x / 4 else if k == 3 then x / 8 else x / 16) % 2 == 1
  }

  /** The five bits of a code, lowest first. */
  function BitsOf(x: Code): (b: seq<bool>)
    ensures |b| == 5
  {
    [Bit(x, 0)] + ([Bit(x, 1)] + ([Bit(x, 2)] + ([Bit(x, 3)] + [Bit(x, 4)])))
  }

  /** Biphase mark code (section 5.8.1 of the USB Power Delivery Specification): the level changes at the start of
      every bit, and again in the middle of a one. */
  function Levels(last: bool, bits: seq<bool>): (l: seq<bool>)
    ensures |l| == 2 * |bits|
    decreases bits
  {
    if bits == [] then [] else
      var end := if bits[0] then last else !last;
      [!last, end] + Levels(end, bits[1..])
  }

  function LastLevel(last: bool, bits: seq<bool>): bool
    decreases bits
  {
    if bits == [] then last else LastLevel(if bits[0] then last else !last, bits[1..])
  }

  /** The macro that precomputes the ten half-bits of a code, for a line that starts low. */
  function Bmc(b0: bool, b1: bool, b2: bool, b3: bool, b4: bool): bv10 {
    (if b0 then 0x001 else 0x3FF) ^ (if b1 then 0x004 else 0x3FC) ^ (if b2 then 0x010 else 0x3F0)
    ^ (if b3 then 0x040 else 0x3C0) ^ (if b4 then 0x100 else 0x300)
  }

  function BmcOf(x: Code): bv10 { Bmc(Bit(x, 0), Bit(x, 1), Bit(x, 2), Bit(x, 3), Bit(x, 4)) }

  function HalfBits(v: bv10): (l: seq<bool>)
    ensures |l| == 10
  {
    [v & 0x001 != 0, v & 0x002 != 0] + ([v & 0x004 != 0, v & 0x008 != 0] + ([v & 0x010 != 0, v & 0x020 != 0]
    + ([v & 0x040 != 0, v & 0x080 != 0] + [v & 0x100 != 0, v & 0x200 != 0])))
  }

  function Toggle(last: bool): bv10 { if last then 0x3FF else 0 }

  /** Half-bits of one code, written out. */
  function FiveCells(last: bool, b0: bool, b1: bool, b2: bool, b3: bool, b4: bool): seq<bool> {
    var l1 := if b0 then last else !last;
    var l2 := if b1 then l1 else !l1;
    var l3 := if b2 then l2 else !l2;
    var l4 := if b3 then l3 else !l3;
    [!last, l1] + ([!l1, l2] + ([!l2, l3] + ([!l3, l4] + [!l4, if b4 then l4 else !l4])))
  }

  lemma {:induction false} BmcIsFiveCells(last: bool, b0: bool, b1: bool, b2: bool, b3: bool, b4: bool)
    ensures var v := Toggle(last) ^ Bmc(b0, b1, b2, b3, b4);
            HalfBits(v) == FiveCells(last, b0, b1, b2, b3, b4)
            && (v & 0x200 != 0) == LastOfFive(last, b0, b1, b2, b3, b4)
  {
  }

  function LastOfFive(last: bool, b0: bool, b1: bool, b2: bool, b3: bool, b4: bool): bool {
    last == (b0 == (b1 == (b2 == (b3 == b4))))
  }

  lemma {:induction false} OneCell(last: bool, b: bool, rest: seq<bool>, bits: seq<bool>)
    requires bits == [b] + rest
    ensures var end := if b then last else !last;
            Levels(last, bits) == [!last, end] + Levels(end, rest) && LastLevel(last, bits) == LastLevel(end, rest)
  {
    assert bits[1..] == rest;
  }

  lemma {:induction false} FiveCellsAreLevels(last: bool, b0: bool, b1: bool, b2: bool, b3: bool, b4: bool)
    ensures FiveCells(last, b0, b1, b2, b3, b4) == Levels(last, [b0] + ([b1] + ([b2] + ([b3] + [b4]))))
    ensures LastOfFive(last, b0, b1, b2, b3, b4) == LastLevel(last, [b0] + ([b1] + ([b2] + ([b3] + [b4]))))
  {
    var l1 := if b0 then last else !last;
    var l2 := if b1 then l1 else !l1;
    var l3 := if b2 then l2 else !l2;
    var l4 := if b3 then l3 else !l3;
    OneCell(last, b0, [b1] + ([b2] + ([b3] + [b4])), [b0] + ([b1] + ([b2] + ([b3] + [b4]))));
    OneCell(l1, b1, [b2] + ([b3] + [b4]), [b1] + ([b2] + ([b3] + [b4])));
    OneCell(l2, b2, [b3] + [b4], [b2] + ([b3] + [b4]));
    OneCell(l3, b3, [b4], [b3] + [b4]);
    LastCell(l4, b4);
  }

  lemma {:induction false} LastCell(last: bool, b: bool)
    ensures var end := if b then last else !last;
            Levels(last, [b]) == [!last, end] && LastLevel(last, [b]) == end
  {
    assert [b][1..] == [];
  }

  lemma {:induction false} BmcIsLineCode(last: bool, x: Code)
    ensures var v := Toggle(last) ^ BmcOf(x);
            HalfBits(v) == Levels(last, BitsOf(x)) && (v & 0x200 != 0) == LastLevel(last, BitsOf(x))
  {
    BmcIsFiveCells(last, Bit(x, 0), Bit(x, 1), Bit(x, 2), Bit(x, 3), Bit(x, 4));
    FiveCellsAreLevels(last, Bit(x, 0), Bit(x, 1), Bit(x, 2), Bit(x, 3), Bit(x, 4));
  }

  /** The half-bits of symbols on a line that starts high, and the level they end at. */
  function LineLevels(codes: seq<Code>): (l: seq<bool>)
    ensures |l| == 10 * |codes|
  {
    if codes == [] then [] else
      LineLevels(codes[..|codes| - 1]) + Levels(LineEnd(codes[..|codes| - 1]), BitsOf(codes[|codes| - 1]))
  }

  function LineEnd(codes: seq<Code>): bool {
    if codes == [] then true else LastLevel(LineEnd(codes[..|codes| - 1]), BitsOf(codes[|codes| - 1]))
  }

  lemma {:induction false} OneMoreCode(before: seq<bool>, codes: seq<Code>, code: Code, half: seq<bool>)
    requires half == Levels(LineEnd(codes), BitsOf(code))
    ensures before + LineLevels(codes + [code]) == before + LineLevels(codes) + half
    ensures LineEnd(codes + [code]) == LastLevel(LineEnd(codes), BitsOf(code))
  {
    assert (codes + [code])[..|codes|] == codes;
  }

  // ---------------------------------------------------------------- transmitter

  lemma {:induction false} OneMoreWord(o: seq<Code>, data: seq<Word>, i: nat)
    requires i < |data|
    ensures o + WordsCodes(data[..i]) + WordCodes(data[i]) == o + WordsCodes(data[..i + 1])
  {
    assert data[..i + 1][..i] == data[..i];
  }

  /** The symbols of a message behind the preamble (section 5.6): low nibbles first. */
  function ShortCodes(v: Short): (s: seq<Code>)
    ensures |s| == 4
  {
    [Encode(Digit(v, 0)), Encode(Digit(v, 1)), Encode(Digit(v, 2)), Encode(Digit(v, 3))]
  }

  /** (v >> 4 * k) & 0xF */
  function Digit(v: nat, k: nat): (d: nat)
    ensures d < 16
  {
    if k == 0 then v % 16 else Digit(v / 16, k - 1)
  }

  /** v >> 4 * nibbles */
  function ShiftRight(v: nat, nibbles: nat): (r: nat)
  {
    if nibbles == 0 then v else ShiftRight(v / 16, nibbles - 1)
  }

  /** v & 0xFFFF */
  function Low16(v: nat): Short
  {
    if v < 0x1_0000 then v else Low16(v - 0x1_0000)
  }

  function WordCodes(v: Word): (s: seq<Code>)
    ensures |s| == 8
  {
    ShortCodes(Low16(v)) + ShortCodes(Low16(ShiftRight(v, 4)))
  }

  /** Lowest nibble first, and the lower half of a word first. */
  lemma LowestFirst(v: Short, w: Word)
    ensures ShortCodes(v) == [Encode(v % 16), Encode(v / 16 % 16), Encode(v / 256 % 16), Encode(v / 4096)]
    ensures WordCodes(w) == ShortCodes(w % 0x1_0000) + ShortCodes(w / 0x1_0000)
  {
    DigitsOf(v);
    var a, b, c := w / 16, w / 16 / 16, w / 16 / 16 / 16;
    assert ShiftRight(w, 4) == ShiftRight(a, 3) == ShiftRight(b, 2) == ShiftRight(c, 1) == c / 16;
    assert b == w / 256 && c == w / 4096 && c / 16 == w / 0x1_0000;
    Low16Is(w);
    Low16Is(w / 0x1_0000);
  }

  lemma DigitsOf(v: Short)
    ensures Digit(v, 0) == v % 16 && Digit(v, 1) == v / 16 % 16 && Digit(v, 2) == v / 256 % 16
    ensures Digit(v, 3) == v / 4096
  {
    var a, b, c := v / 16, v / 16 / 16, v / 16 / 16 / 16;
    assert b == v / 256 && c == v / 4096 < 16;
    assert Digit(v, 1) == Digit(a, 0) && Digit(v, 2) == Digit(a, 1) == Digit(b, 0);
    assert Digit(v, 3) == Digit(a, 2) == Digit(b, 1) == Digit(c, 0);
  }

  lemma {:induction false} Low16Is(v: nat)
    ensures Low16(v) == v % 0x1_0000
  {
    if v >= 0x1_0000 { Low16Is(v - 0x1_0000); }
  }

  function WordsCodes(data: seq<Word>): (s: seq<Code>)
    ensures |s| == 8 * |data|
  {
    if data == [] then [] else WordsCodes(data[..|data| - 1]) + WordCodes(data[|data| - 1])
  }

  const SOP_CODES: seq<Code> := [PD_SYNC1, PD_SYNC1, PD_SYNC1, PD_SYNC2]

  function PacketCodes(header: Short, data: seq<Word>, crc: Word, eop: Code): (s: seq<Code>) {
    InOrder(SOP_CODES, ShortCodes(header), WordsCodes(data), WordCodes(crc), [eop])
  }

  function InOrder(sop: seq<Code>, header: seq<Code>, data: seq<Code>, crc: seq<Code>, eop: seq<Code>): seq<Code> {
    sop + header + data + crc + eop
  }

  /** 64 alternating bits, the line high before and after. */
  function Preamble(): (l: seq<bool>)
    ensures |l| == 128 && l[127]
  {
    seq(128, i => i % 8 == 2 || i % 8 == 4 || i % 8 == 5 || i % 8 == 7)
  }

  function Alternating(pairs: nat): (b: seq<bool>)
    ensures |b| == 2 * pairs
    decreases pairs
  {
    if pairs == 0 then [] else [false, true] + Alternating(pairs - 1)
  }

  /** Eight half-bits: the line code of zero, one, zero, one. */
  const TURN := [false, false, true, false, true, true, false, true]

  function Turns(n: nat): (l: seq<bool>)
    ensures |l| == 8 * n
  {
    if n == 0 then [] else TURN + Turns(n - 1)
  }

  /** The preamble is the line code of 64 bits, zero and one in turn. */
  lemma PreambleIsAlternating(pairs: nat)
    requires pairs == 32
    ensures Preamble() == Levels(true, Alternating(pairs)) && LastLevel(true, Alternating(pairs))
  {
    AlternatingTurns(pairs, 16);
    var p, l := Preamble(), Turns(16);
    forall i | 0 <= i < 128 ensures p[i] == l[i] { TurnAt(16, i / 8, i % 8); }
  }

  lemma {:induction false} TurnAt(n: nat, q: nat, r: nat)
    requires q < n && r < 8
    ensures Turns(n)[8 * q + r] == TURN[r]
  {
    if q > 0 { TurnAt(n - 1, q - 1, r); }
  }

  lemma {:induction false} AlternatingTurns(pairs: nat, n: nat)
    requires pairs == 2 * n
    ensures Levels(true, Alternating(pairs)) == Turns(n) && LastLevel(true, Alternating(pairs))
  {
    if n > 0 {
      var rest := Alternating(pairs - 2);
      AlternatingTurns(pairs - 2, n - 1);
      var all := [false] + ([true] + ([false] + ([true] + rest)));
      assert Alternating(pairs) == all by {
        assert Alternating(pairs) == [false, true] + ([false, true] + rest);
      }
      FourCells(rest, all);
    }
  }

  lemma {:induction false} FourCells(rest: seq<bool>, all: seq<bool>)
    requires all == [false] + ([true] + ([false] + ([true] + rest)))
    ensures Levels(true, all) == TURN + Levels(true, rest) && LastLevel(true, all) == LastLevel(true, rest)
  {
    OneCell(true, false, [true] + ([false] + ([true] + rest)), all);
    OneCell(false, true, [false] + ([true] + rest), [true] + ([false] + ([true] + rest)));
    OneCell(false, false, [true] + rest, [false] + ([true] + rest));
    OneCell(true, true, rest, [true] + rest);
  }

  function LastEdge(last: bool): seq<bool> { if last then [false, false, false] else [true, true, false] }

  /** A whole transmission. */
  function Wire(codes: seq<Code>): seq<bool> {
    Preamble() + LineLevels(codes) + LastEdge(LineEnd(codes))
  }

  /** The transmit side of the physical layer: half-bit levels and the level the line is left at. */
  class Transmitter {
    var samples: seq<bool>
    var toggle: bv10
    ghost var codes: seq<Code>

    ghost predicate Valid()
      reads this
    {
      samples == Preamble() + LineLevels(codes) && toggle == Toggle(LineEnd(codes))
    }

    constructor ()
    {
      samples, toggle := [], 0;
    }

    method WritePreamble() returns (off: int)
      modifies this
      ensures Valid() && codes == [] && off == |samples|
    {
      samples := Preamble();
      toggle := 0x3FF;
      codes := [];
      off := 2 * 64;
    }

    method WriteSym(off: int, val10: bv10, ghost code: Code) returns (next: int)
      requires Valid() && off == |samples| && val10 == BmcOf(code)
      modifies this
      ensures Valid() && next == |samples| && codes == old(codes) + [code]
    {
      var half, end := NextSymbol(toggle, val10, LineEnd(codes), code);
      OneMoreCode(Preamble(), codes, code, half);
      toggle := end;
      samples := samples + half;
      codes := codes + [code];
      next := off + 5 * 2;
    }

    static method NextSymbol(toggle: bv10, val10: bv10, ghost last: bool, ghost code: Code)
      returns (half: seq<bool>, end: bv10)
      requires toggle == Toggle(last) && val10 == BmcOf(code)
      ensures half == Levels(last, BitsOf(code)) && end == Toggle(LastLevel(last, BitsOf(code)))
    {
      var val := toggle ^ val10;
      BmcIsLineCode(last, code);
      half := HalfBits(val);
      end := if val & 0x200 != 0 then 0x3FF else 0;
    }

    method EncodeShort(off: int, val16: Short) returns (next: int)
      requires Valid() && off == |samples|
      modifies this
      ensures Valid() && next == |samples| && codes == old(codes) + ShortCodes(val16)
    {
      next := WriteCode(off, Encode(Digit(val16, 0)));
      next := WriteCode(next, Encode(Digit(val16, 1)));
      next := WriteCode(next, Encode(Digit(val16, 2)));
      next := WriteCode(next, Encode(Digit(val16, 3)));
    }

    method WriteCode(off: int, code: Code) returns (next: int)
      requires Valid() && off == |samples|
      modifies this
      ensures Valid() && next == |samples| && codes == old(codes) + [code]
    {
      next := WriteSym(off, BmcOf(code), code);
    }

    method EncodeWord(off: int, val32: Word) returns (next: int)
      requires Valid() && off == |samples|
      modifies this
      ensures Valid() && next == |samples| && codes == old(codes) + WordCodes(val32)
    {
      next := EncodeShort(off, Low16(val32));
      next := EncodeShort(next, Low16(ShiftRight(val32, 4)));
    }

    method WriteLastEdge(off: int) returns (next: int)
      requires Valid() && off == |samples|
      modifies this
      ensures next == |samples| && samples == Wire(old(codes))
    {
      samples := samples + (if toggle == 0 then [true, true, false] else [false, false, false]);
      next := off + 3;
    }

    method WriteSop(off: int) returns (next: int)
      requires Valid() && off == |samples| && codes == []
      modifies this
      ensures Valid() && next == |samples| && codes == SOP_CODES
    {
      next := WriteCode(off, PD_SYNC1);
      next := WriteCode(next, PD_SYNC1);
      next := WriteCode(next, PD_SYNC1);
      next := WriteCode(next, PD_SYNC2);
    }

    /** A 4b/5b-encoded message; crc is the checksum of a header and its data words. */
    method PrepareMessage(header: Short, cnt: nat, data: seq<Word>, crc: (Short, seq<Word>) -> Word) returns (off: int)
      requires cnt == |data|
      modifies this
      ensures off == |samples| && samples == Wire(PacketCodes(header, data, crc(header, data), PD_EOP))
    {
      off := WriteSymbols(header, cnt, data, crc);
      off := WriteLastEdge(off);
    }

    method WriteSymbols(header: Short, cnt: nat, data: seq<Word>, crc: (Short, seq<Word>) -> Word) returns (off: int)
      requires cnt == |data|
      modifies this
      ensures Valid() && off == |samples| && codes == PacketCodes(header, data, crc(header, data), PD_EOP)
    {
      off := WritePreamble();
      off := WriteSop(off);
      off := EncodeShort(off, header);
      off := WriteData(off, cnt, data);
      off := EncodeWord(off, crc(header, data));
      off := WriteEop(off);
    }

    method WriteEop(off: int) returns (next: int)
      requires Valid() && off == |samples|
      modifies this
      ensures Valid() && next == |samples| && codes == old(codes) + [PD_EOP]
    {
      next := WriteCode(off, PD_EOP);
    }

    method WriteData(start: int, cnt: nat, data: seq<Word>) returns (off: int)
      requires cnt == |data| && Valid() && start == |samples|
      modifies this
      ensures Valid() && off == |samples| && codes == old(codes) + WordsCodes(data)
    {
      off := start;
      var i := 0;
      while i < cnt
        invariant 0 <= i <= cnt && Valid() && off == |samples| && codes == old(codes) + WordsCodes(data[..i])
      {
        off := EncodeWord(off, data[i]);
        OneMoreWord(old(codes), data, i);
        i := i + 1;
      }
      assert data[..i] == data;
    }
  }

  // ---------------------------------------------------------------- receiver

  /** Level change at the start of bit k. */
  predicate Edge(wire: seq<bool>, k: int)
    requires 0 < k && 2 * k < |wire|
  {
    wire[2 * k - 1] != wire[2 * k]
  }

  /** Edges before and after each of the bits from off. */
  predicate Edges(wire: seq<bool>, off: int, len: nat)
    requires 0 < off && 2 * (off + len) < |wire|
  {
    Edge(wire, off + len) && (len > 0 ==> Edges(wire, off, len - 1))
  }

  /** The bits from off are all on the wire, with an edge before and after each. */
  predicate CanDequeue(wire: seq<bool>, off: int, len: nat) {
    0 < off && 2 * (off + len) < |wire| && Edges(wire, off, len)
  }

  /** The number in the bits from off, lowest first. */
  function Gather(wire: seq<bool>, off: nat, len: nat): (n: nat)
    requires 2 * (off + len) <= |wire|
    decreases len, off
  {
    if len == 0 then 0 else BitAt(wire, off) + 2 * Gather(wire, off + 1, len - 1)
  }

  /** A one changes the level in the middle. */
  function BitAt(wire: seq<bool>, off: nat): (b: nat)
    requires 2 * off + 1 < |wire|
    ensures b <= 1
  {
    if wire[2 * off] != wire[2 * off + 1] then 1 else 0
  }

  lemma {:induction false} GatherFive(wire: seq<bool>, off: nat, len: nat)
    requires 2 * (off + 5 + len) <= |wire|
    ensures Gather(wire, off, 5) < 32
    ensures Gather(wire, off, 5 + len) == Gather(wire, off, 5) + 32 * Gather(wire, off + 5, len)
  {
    var n := 5;
    GatherStep(wire, off, n, len);
    GatherStep(wire, off + 1, n - 1, len);
    GatherStep(wire, off + 2, n - 2, len);
    GatherStep(wire, off + 3, n - 3, len);
    GatherStep(wire, off + 4, n - 4, len);
  }

  lemma {:induction false} GatherStep(wire: seq<bool>, off: nat, n: nat, len: nat)
    requires n > 0 && 2 * (off + n + len) <= |wire|
    ensures Gather(wire, off, n) == BitAt(wire, off) + 2 * Gather(wire, off + 1, n - 1)
    ensures Gather(wire, off, n + len) == BitAt(wire, off) + 2 * Gather(wire, off + 1, n - 1 + len)
  {
  }

  function Symbol(wire: seq<bool>, off: nat): Code
    requires 2 * (off + 5) <= |wire|
  {
    GatherFive(wire, off, 0);
    Gather(wire, off, 5)
  }

  function Shift(x: nat, nibbles: nat): nat { if nibbles == 0 then x else 16 * Shift(x, nibbles - 1) }

  /** Decoded symbols in one number, lowest first; the codes of errors are not told apart from nibbles. */
  function Assemble(nibbles: seq<nat>): nat {
    if nibbles == [] then 0 else Or(Assemble(nibbles[..|nibbles| - 1]), Shift(nibbles[|nibbles| - 1], |nibbles| - 1))
  }

  function Nibble(wire: seq<bool>, off: nat): nat
    requires 2 * (off + 5) <= |wire|
  {
    Decode(Symbol(wire, off))
  }

  /** The short that the four symbols from off decode to. */
  function ShortAt(wire: seq<bool>, off: nat): Short
    requires 2 * (off + 20) <= |wire|
  {
    Low16(Assemble([Nibble(wire, off), Nibble(wire, off + 5), Nibble(wire, off + 10), Nibble(wire, off + 15)]))
  }

  function WordAt(wire: seq<bool>, off: nat): Word
    requires 2 * (off + 40) <= |wire|
  {
    ShortAt(wire, off) + 0x1_0000 * ShortAt(wire, off + 20)
  }

  function WordsAt(wire: seq<bool>, off: nat, n: nat): (d: seq<Word>)
    requires 2 * (off + 40 * n) <= |wire|
    ensures |d| == n
  {
    if n == 0 then [] else WordsAt(wire, off, n - 1) + [WordAt(wire, off + 40 * (n - 1))]
  }

  /** Position behind the start of packet, or an error. */
  function FindSop(wire: seq<bool>, bit: int): (at: int)
    decreases |wire| - bit
  {
    if bit <= 0 then bit
    else if !CanDequeue(wire, bit, 20) then PD_RX_ERR_INVAL
    else
      var val := Gather(wire, bit, 20);
      if val == PD_SOP then bit + 20
      else if val == PD_SOP_PRIME || val == PD_SOP_PRIME_PRIME then PD_RX_ERR_UNSUPPORTED_SOP
      else FindSop(wire, bit + 20)
  }

  datatype Reception =
    | Failed(code: int)
    /** The checksum is not all there: reported as a bad checksum or as an invalid packet. */
    | Truncated
    | WrongEop(end: int)
    | Packet(header: Short, payload: seq<Word>)

  /** What the wire carries from a preamble that ends at start. */
  function Receive(wire: seq<bool>, start: int, crc: (Short, seq<Word>) -> Word): Reception {
    if start < 0 then Failed(start) else
      var at := FindSop(wire, start);
      if at < 0 then Failed(at) else AfterSop(wire, at, crc)
  }

  function AfterSop(wire: seq<bool>, at: nat, crc: (Short, seq<Word>) -> Word): Reception {
    if !CanDequeue(wire, at, 20) then Failed(PD_RX_ERR_INVAL) else
      var header := ShortAt(wire, at);
      Body(wire, at + 20, header, header / 0x1000 % 8, crc)
  }

  function Body(wire: seq<bool>, at: nat, header: Short, cnt: nat, crc: (Short, seq<Word>) -> Word): Reception {
    if !CanDequeue(wire, at, 40 * cnt) then Failed(PD_RX_ERR_INVAL) else
      var payload := WordsAt(wire, at, cnt);
      Trailer(wire, at + 40 * cnt, header, payload, crc(header, payload))
  }

  function Trailer(wire: seq<bool>, at: nat, header: Short, payload: seq<Word>, ccrc: Word): Reception {
    if !CanDequeue(wire, at, 40) then Truncated else
    if WordAt(wire, at) != ccrc then Failed(PD_RX_ERR_CRC) else
    if !CanDequeue(wire, at + 40, 4) then Failed(PD_RX_ERR_INVAL) else
    if Gather(wire, at + 40, 4) != PD_EOP then WrongEop(at + 44) else Packet(header, payload)
  }

  /** Dequeue bits from the wire; on failure the destination keeps what it held. */
  method DequeueBits(wire: seq<bool>, off: int, len: nat, before: nat) returns (end: int, val: nat)
    ensures CanDequeue(wire, off, len) ==> end == off + len && val == Gather(wire, off, len)
    ensures !CanDequeue(wire, off, len) ==> end == -1 && val == before
  {
    if CanDequeue(wire, off, len) {
      end, val := off + len, Gather(wire, off, len);
    } else {
      end, val := -1, before;
    }
  }

  lemma {:induction false} FourSymbols(wire: seq<bool>, off: nat)
    requires 2 * (off + 20) <= |wire|
    ensures Gather(wire, off, 20)
         == Symbol(wire, off) + 32 * Symbol(wire, off + 5) + 1024 * Symbol(wire, off + 10) + 32768 * Symbol(wire, off + 15)
  {
    GatherFive(wire, off, 15);
    GatherFive(wire, off + 5, 10);
    GatherFive(wire, off + 10, 5);
    GatherFive(wire, off + 15, 0);
  }

  lemma {:induction false} FourDigits(w: nat, c0: Code, c1: Code, c2: Code, c3: Code)
    requires w == c0 + 32 * c1 + 1024 * c2 + 32768 * c3
    ensures w % 32 == c0 && w / 32 % 32 == c1 && w / 1024 % 32 == c2 && w / 32768 % 32 == c3
  {
    assert w / 32 == c1 + 32 * c2 + 1024 * c3;
    assert w / 1024 == c2 + 32 * c3;
    assert w / 32768 == c3;
  }

  method DecodeShort(wire: seq<bool>, off: int) returns (end: int, val16: Short)
    ensures CanDequeue(wire, off, 20) ==> end == off + 20 && val16 == ShortAt(wire, off)
    ensures !CanDequeue(wire, off, 20) ==> end == -1
  {
    var w: nat :| 0 <= w;
    end, w := DequeueBits(wire, off, 20, w);
    if CanDequeue(wire, off, 20) {
      FourSymbols(wire, off);
      FourDigits(w, Symbol(wire, off), Symbol(wire, off + 5), Symbol(wire, off + 10), Symbol(wire, off + 15));
    }
    val16 := Low16(Assemble([Decode(w % 32), Decode(w / 32 % 32), Decode(w / 1024 % 32), Decode(w / 32768 % 32)]));
  }

  lemma {:induction false} DequeueSplit(wire: seq<bool>, off: int, a: nat, b: nat)
    ensures CanDequeue(wire, off, a + b) <==> CanDequeue(wire, off, a) && CanDequeue(wire, off + a, b)
    decreases b
  {
    if b > 0 { DequeueSplit(wire, off, a, b - 1); }
  }

  method DecodeWord(wire: seq<bool>, off: int) returns (end: int, val32: Word)
    ensures CanDequeue(wire, off, 40) ==> end == off + 40 && val32 == WordAt(wire, off)
    ensures !CanDequeue(wire, off, 40) ==> end == -1
  {
    DequeueSplit(wire, off, 20, 20);
    var low, high: Short;
    end, low := DecodeShort(wire, off);
    end, high := DecodeShort(wire, end);
    val32 := low + 0x1_0000 * high;
  }

  ghost predicate Reports(r: int, payload: seq<Word>, reception: Reception) {
    match reception
    case Failed(code) => r == code
    case Truncated => r == PD_RX_ERR_INVAL || r == PD_RX_ERR_CRC
    case WrongEop(end) => r == end
    case Packet(header, data) => r == header && |data| <= |payload| && payload[..|data|] == data
  }

  /** Parse what follows the preamble; start is what the preamble detector returned. */
  method AnalyzeRx(wire: seq<bool>, start: int, crc: (Short, seq<Word>) -> Word, payload: array<Word>) returns (r: int)
    requires payload.Length == 7
    modifies payload
    ensures Reports(r, payload[..], Receive(wire, start, crc))
  {
    var bit := start;
    if bit < 0 { return bit; }
    bit := SkipToSop(wire, bit);
    if bit < 0 { return bit; }
    r := AnalyzePacket(wire, bit, crc, payload);
  }

  method AnalyzePacket(wire: seq<bool>, start: nat, crc: (Short, seq<Word>) -> Word, payload: array<Word>)
    returns (r: int)
    requires payload.Length == 7
    modifies payload
    ensures Reports(r, payload[..], AfterSop(wire, start, crc))
  {
    var bit, header := DecodeShort(wire, start);
    var cnt := header / 0x1000 % 8;
    if bit >= 0 { DequeueSplit(wire, start, 20, 0); }
    r := AnalyzeBody(wire, bit, header, cnt, crc, payload);
  }

  method AnalyzeBody(wire: seq<bool>, start: int, header: Short, cnt: nat, crc: (Short, seq<Word>) -> Word,
                     payload: array<Word>)
    returns (r: int)
    requires start != 0 && (start > 0 ==> CanDequeue(wire, start, 0)) && cnt <= payload.Length
    modifies payload
    ensures start < 0 ==> r == start
    ensures start > 0 ==> Reports(r, payload[..], Body(wire, start, header, cnt, crc))
  {
    var bit := ReadPayload(wire, start, cnt, payload);
    var data := payload[..cnt];
    if bit < 0 {
      assert start > 0 ==> Body(wire, start, header, cnt, crc) == Failed(bit);
      return bit;
    }
    r := FinishBody(wire, start, header, cnt, crc, bit, data);
    LongerBuffer(r, data, payload[..], Body(wire, start, header, cnt, crc));
  }

  method FinishBody(wire: seq<bool>, ghost start: nat, header: Short, ghost cnt: nat, crc: (Short, seq<Word>) -> Word,
                    bit: nat, data: seq<Word>)
    returns (r: int)
    requires start > 0 && CanDequeue(wire, start, 40 * cnt) && bit == start + 40 * cnt && data == WordsAt(wire, start, cnt)
    ensures Reports(r, data, Body(wire, start, header, cnt, crc))
  {
    BodyIsTrailer(wire, start, header, cnt, crc);
    r := CheckTrailer(wire, bit, header, data, crc(header, data));
  }

  lemma {:induction false} BodyIsTrailer(wire: seq<bool>, start: nat, header: Short, cnt: nat,
                                         crc: (Short, seq<Word>) -> Word)
    requires CanDequeue(wire, start, 40 * cnt)
    ensures Body(wire, start, header, cnt, crc)
         == Trailer(wire, start + 40 * cnt, header, WordsAt(wire, start, cnt), crc(header, WordsAt(wire, start, cnt)))
  {
  }

  lemma {:induction false} LongerBuffer(r: int, data: seq<Word>, payload: seq<Word>, reception: Reception)
    requires Reports(r, data, reception) && |data| <= |payload| && payload[..|data|] == data
    ensures Reports(r, payload, reception)
  {
  }

  /** Read 20 bits at a time up to a start of packet. */
  method SkipToSop(wire: seq<bool>, start: int) returns (bit: int)
    requires start >= 0
    ensures bit == FindSop(wire, start)
  {
    bit := start;
    var val := 0;
    while bit > 0
      invariant FindSop(wire, bit) == FindSop(wire, start)
      invariant val != PD_SOP && val != PD_SOP_PRIME && val != PD_SOP_PRIME_PRIME
      decreases if bit <= 0 then 0 else if bit <= |wire| then |wire| - bit + 2 else 1
    {
      bit, val := DequeueBits(wire, bit, 20, val);
      if val == PD_SOP {
        break;
      } else if val == PD_SOP_PRIME || val == PD_SOP_PRIME_PRIME {
        return PD_RX_ERR_UNSUPPORTED_SOP;
      }
    }
  }

  method ReadPayload(wire: seq<bool>, start: int, cnt: nat, payload: array<Word>) returns (bit: int)
    requires start != 0 && (start > 0 ==> CanDequeue(wire, start, 0)) && cnt <= payload.Length
    modifies payload
    ensures start < 0 ==> bit == start
    ensures start > 0 && !CanDequeue(wire, start, 40 * cnt) ==> bit == -1
    ensures start > 0 && CanDequeue(wire, start, 40 * cnt) ==>
              bit == start + 40 * cnt && payload[..cnt] == WordsAt(wire, start, cnt)
  {
    bit := start;
    var p := 0;
    while p < cnt && bit > 0
      invariant 0 <= p <= cnt && (start < 0 ==> bit == start)
      invariant start > 0 ==> ReadSoFar(wire, start, p, bit, payload[..p])
    {
      var word: Word;
      ghost var at := bit;
      bit, word := DecodeWord(wire, bit);
      payload[p] := word;
      if start > 0 { OneMoreRead(wire, start, p, at, bit, payload[..p], word); }
      assert payload[..p + 1] == payload[..p] + [word];
      p := p + 1;
    }
    if bit == -1 && start > 0 { DequeueSplit(wire, start, 40 * p, 40 * (cnt - p)); }
  }

  ghost predicate ReadSoFar(wire: seq<bool>, start: nat, p: nat, bit: int, words: seq<Word>) {
    if CanDequeue(wire, start, 40 * p) then bit == start + 40 * p && words == WordsAt(wire, start, p) else bit == -1
  }

  lemma {:induction false} WordsAtStep(wire: seq<bool>, start: nat, p: nat)
    requires 2 * (start + 40 * p + 40) <= |wire|
    ensures WordsAt(wire, start, p + 1) == WordsAt(wire, start, p) + [WordAt(wire, start + 40 * p)]
  {
  }

  lemma {:induction false} OneMoreRead(wire: seq<bool>, start: nat, p: nat, at: int, bit: int, words: seq<Word>,
                                       word: Word)
    requires ReadSoFar(wire, start, p, at, words) && at > 0
    requires if CanDequeue(wire, at, 40) then bit == at + 40 && word == WordAt(wire, at) else bit == -1
    ensures ReadSoFar(wire, start, p + 1, bit, words + [word])
  {
    DequeueSplit(wire, start, 40 * p, 40);
    if CanDequeue(wire, at, 40) { WordsAtStep(wire, start, p); }
  }

  method CheckTrailer(wire: seq<bool>, start: int, header: Short, payload: seq<Word>, ccrc: Word) returns (r: int)
    requires start > 0
    ensures Reports(r, payload, Trailer(wire, start, header, payload, ccrc))
  {
    var bit, pcrc := DecodeWord(wire, start);
    if bit < 0 || pcrc != ccrc {
      return if pcrc != ccrc then PD_RX_ERR_CRC else bit;
    }
    var eop := 0;
    bit, eop := DequeueBits(wire, bit, 4, eop);
    if bit < 0 || eop != PD_EOP { return bit; }
    return header;
  }

  // ---------------------------------------------------------------- round trip

  function ValueOf(bits: seq<bool>): nat {
    if bits == [] then 0 else (if bits[0] then 1 else 0) + 2 * ValueOf(bits[1..])
  }

  lemma {:induction false} ValueStep(b: bool, rest: seq<bool>)
    ensures ValueOf([b] + rest) == (if b then 1 else 0) + 2 * ValueOf(rest)
  {
    assert ([b] + rest)[1..] == rest;
  }

  lemma {:induction false} ValueOfFive(b0: bool, b1: bool, b2: bool, b3: bool, b4: bool)
    ensures ValueOf([b0] + ([b1] + ([b2] + ([b3] + [b4]))))
         == (if b0 then 1 else 0) + (if b1 then 2 else 0) + (if b2 then 4 else 0) + (if b3 then 8 else 0) + if b4 then 16 else 0
  {
    ValueStep(b0, [b1] + ([b2] + ([b3] + [b4])));
    ValueStep(b1, [b2] + ([b3] + [b4]));
    ValueStep(b2, [b3] + [b4]);
    ValueStep(b3, [b4]);
    ValueStep(b4, []);
    assert [b4] + [] == [b4];
  }

  lemma {:induction false} BitsOfValue(x: Code)
    ensures ValueOf(BitsOf(x)) == x
  {
    ValueOfFive(Bit(x, 0), Bit(x, 1), Bit(x, 2), Bit(x, 3), Bit(x, 4));
    FiveBits(x);
  }

  lemma {:induction false} FiveBits(x: Code)
    ensures x == (if Bit(x, 0) then 1 else 0) + (if Bit(x, 1) then 2 else 0) + (if Bit(x, 2) then 4 else 0)
               + (if Bit(x, 3) then 8 else 0) + if Bit(x, 4) then 16 else 0
  {
    assert x == x % 2 + 2 * (x / 2);
    assert x / 2 == x / 2 % 2 + 2 * (x / 4);
    assert x / 4 == x / 4 % 2 + 2 * (x / 8);
    assert x / 8 == x / 8 % 2 + 2 * (x / 16);
  }

  lemma {:induction false} LevelsEnd(last: bool, bits: seq<bool>)
    requires bits != []
    ensures Levels(last, bits)[0] == !last && Levels(last, bits)[2 * |bits| - 1] == LastLevel(last, bits)
    decreases bits
  {
    if |bits| > 1 { LevelsEnd(if bits[0] then last else !last, bits[1..]); } else { assert bits[1..] == []; }
  }

  /** The first cell of a stretch of line code, and the rest. */
  lemma {:induction false} FirstCell(wire: seq<bool>, at: nat, last: bool, bits: seq<bool>, end: bool, to: nat)
    requires bits != [] && to == at + |bits| && 2 * to <= |wire| && end == (if bits[0] then last else !last)
    requires wire[2 * at..2 * to] == Levels(last, bits)
    ensures wire[2 * at] == !last && wire[2 * at + 1] == end
    ensures wire[2 * (at + 1)..2 * to] == Levels(end, bits[1..])
  {
    var stretch := wire[2 * at..2 * to];
    assert wire[2 * at] == stretch[0] && wire[2 * at + 1] == stretch[1];
    assert wire[2 * (at + 1)..2 * to] == stretch[2..];
  }

  /** The receiver gets back the bits of a stretch of line code. */
  lemma {:induction false} BitsArrive(wire: seq<bool>, at: nat, last: bool, bits: seq<bool>, to: nat)
    requires at > 0 && bits != [] && to == at + |bits| && 2 * to < |wire| && wire[2 * at - 1] == last
    requires wire[2 * at..2 * to] == Levels(last, bits)
    requires wire[2 * to] != LastLevel(last, bits)
    ensures CanDequeue(wire, at, |bits|) && Gather(wire, at, |bits|) == ValueOf(bits)
    decreases bits
  {
    var end, rest := if bits[0] then last else !last, bits[1..];
    FirstCell(wire, at, last, bits, end, to);
    assert Edge(wire, at);
    assert BitAt(wire, at) == if bits[0] then 1 else 0;
    if rest != [] {
      BitsArrive(wire, at + 1, end, rest, to);
      DequeueSplit(wire, at + 1, 0, |rest|);
    }
    assert Edge(wire, at + 1);
    OneCellArrives(wire, at);
    DequeueSplit(wire, at, 1, |rest|);
    assert CanDequeue(wire, at + 1, |rest|);
  }

  lemma {:induction false} OneCellArrives(wire: seq<bool>, at: nat)
    requires at > 0 && 2 * (at + 1) < |wire| && Edge(wire, at) && Edge(wire, at + 1)
    ensures CanDequeue(wire, at, 1) && CanDequeue(wire, at + 1, 0)
  {
    var n := 1;
    assert Edges(wire, at, n - 1);
    assert Edges(wire, at, n);
  }

  /** The receiver gets back the symbols at position at. */
  ghost predicate SymbolsAt(wire: seq<bool>, at: nat, codes: seq<Code>) {
    CanDequeue(wire, at, 5 * |codes|) && forall k :: 0 <= k < |codes| ==> SymbolIs(wire, at + 5 * k, codes[k])
  }

  ghost predicate SymbolIs(wire: seq<bool>, at: nat, code: Code) {
    2 * (at + 5) <= |wire| && Symbol(wire, at) == code
  }

  lemma {:induction false} LineEndsAt(codes: seq<Code>)
    requires codes != []
    ensures LineLevels(codes)[10 * |codes| - 1] == LineEnd(codes)
  {
    var n := |codes| - 1;
    LevelsEnd(LineEnd(codes[..n]), BitsOf(codes[n]));
  }

  lemma {:induction false} Slices<T>(s: seq<T>, x: seq<T>, y: seq<T>, from: nat, mid: nat, to: nat)
    requires from <= mid <= to <= |s| && s[from..to] == x + y && mid == from + |x|
    ensures s[from..mid] == x && s[mid..to] == y
  {
    assert s[from..mid] == s[from..to][..|x|];
    assert s[mid..to] == s[from..to][|x|..];
  }

  lemma {:induction false} SymbolsArrive(wire: seq<bool>, start: nat, at: nat, codes: seq<Code>)
    requires start > 0 && at == start + 5 * |codes| && 2 * at < |wire|
    requires wire[2 * start - 1] && wire[2 * start..2 * at] == LineLevels(codes)
    requires codes != [] && wire[2 * at] != LineEnd(codes)
    ensures SymbolsAt(wire, start, codes)
  {
    var n := |codes| - 1;
    var front, last := codes[..n], codes[n];
    var mid := start + 5 * n;
    var bits := BitsOf(last);
    Slices(wire, LineLevels(front), Levels(LineEnd(front), bits), 2 * start, 2 * mid, 2 * at);
    LevelBefore(wire, start, mid, front);
    if n > 0 {
      LevelsEnd(LineEnd(front), bits);
      assert wire[2 * mid] == wire[2 * mid..2 * at][0];
      SymbolsArrive(wire, start, mid, front);
    }
    BitsArrive(wire, mid, LineEnd(front), bits, at);
    BitsOfValue(last);
    OneMoreSymbol(wire, start, front, last, mid);
    assert codes == front + [last];
  }

  lemma {:induction false} LevelBefore(wire: seq<bool>, start: nat, mid: nat, front: seq<Code>)
    requires start > 0 && mid == start + 5 * |front| && 2 * mid < |wire|
    requires wire[2 * start - 1] && wire[2 * start..2 * mid] == LineLevels(front)
    ensures wire[2 * mid - 1] == LineEnd(front)
  {
    if front != [] {
      LineEndsAt(front);
      assert wire[2 * mid - 1] == wire[2 * start..2 * mid][10 * |front| - 1];
    }
  }

  lemma {:induction false} OneMoreSymbol(wire: seq<bool>, start: nat, front: seq<Code>, last: Code, mid: nat)
    requires mid == start + 5 * |front| && (front == [] || SymbolsAt(wire, start, front))
    requires CanDequeue(wire, mid, 5) && SymbolIs(wire, mid, last)
    ensures SymbolsAt(wire, start, front + [last])
  {
    DequeueSplit(wire, start, 5 * |front|, 5);
    DequeueSplit(wire, mid, 0, 5);
  }

  lemma {:induction false} SymbolsSplit(wire: seq<bool>, at: nat, a: seq<Code>, b: seq<Code>, mid: nat)
    requires SymbolsAt(wire, at, a + b) && mid == at + 5 * |a|
    ensures SymbolsAt(wire, at, a) && SymbolsAt(wire, mid, b)
  {
    DequeueSplit(wire, at, 5 * |a|, 5 * |b|);
    forall k | 0 <= k < |a| ensures SymbolIs(wire, at + 5 * k, a[k]) { assert (a + b)[k] == a[k]; }
    forall k | 0 <= k < |b| ensures SymbolIs(wire, mid + 5 * k, b[k]) { assert (a + b)[|a| + k] == b[k]; }
  }

  /** Transmitted, the symbols come back. */
  lemma {:induction false} WireCarries(codes: seq<Code>, start: nat)
    requires codes != [] && 2 * start == |Preamble()|
    ensures SymbolsAt(Wire(codes), start, codes)
  {
    var wire := Wire(codes);
    var at := start + 5 * |codes|;
    assert wire[2 * start..2 * at] == LineLevels(codes);
    assert wire[2 * at] == LastEdge(LineEnd(codes))[0];
    SymbolsArrive(wire, start, at, codes);
  }

  lemma {:induction false} OrDisjoint(x: nat, y: nat, nibbles: nat)
    requires x < Shift(1, nibbles)
    ensures Or(x, Shift(y, nibbles)) == x + Shift(y, nibbles)
  {
    if nibbles > 0 {
      var z := Shift(y, nibbles - 1);
      OrDisjoint(x / 16, y, nibbles - 1);
      OrNibble(x, z);
    }
  }

  lemma {:induction false} OrNibble(x: nat, z: nat)
    ensures Or(x, 16 * z) == x % 16 + 16 * Or(x / 16, z)
  {
    OrTwoBits(x, 4 * z);
    OrTwoBits(x / 4, z);
    assert x / 4 / 4 == x / 16 && x % 16 == x % 4 + 4 * (x / 4 % 4);
  }

  lemma {:induction false} OrTwoBits(x: nat, z: nat)
    ensures Or(x, 4 * z) == x % 4 + 4 * Or(x / 4, z)
  {
    OrBit(x, 2 * z);
    OrBit(x / 2, z);
    assert x / 2 / 2 == x / 4 && x % 4 == x % 2 + 2 * (x / 2 % 2);
  }

  lemma {:induction false} OrBit(x: nat, z: nat)
    ensures Or(x, 2 * z) == x % 2 + 2 * Or(x / 2, z)
  {
    if x != 0 && z != 0 {
      assert 2 * z % 2 == 0 && 2 * z / 2 == z;
    }
  }

  lemma {:induction false} ShortArrives(wire: seq<bool>, at: nat, v: Short)
    requires SymbolsAt(wire, at, ShortCodes(v))
    ensures CanDequeue(wire, at, 20) && ShortAt(wire, at) == v
  {
    NibbleArrives(wire, at, ShortCodes(v), 0, Digit(v, 0));
    NibbleArrives(wire, at, ShortCodes(v), 1, Digit(v, 1));
    NibbleArrives(wire, at, ShortCodes(v), 2, Digit(v, 2));
    NibbleArrives(wire, at, ShortCodes(v), 3, Digit(v, 3));
    NibblesOf(v);
  }

  lemma {:induction false} NibbleArrives(wire: seq<bool>, at: nat, codes: seq<Code>, k: nat, n: nat)
    requires SymbolsAt(wire, at, codes) && k < |codes| && n < 16 && codes[k] == Encode(n)
    ensures 2 * (at + 5 * k + 5) <= |wire| && Nibble(wire, at + 5 * k) == n
  {
    assert SymbolIs(wire, at + 5 * k, codes[k]);
    TablesInvert(n, 0);
  }

  lemma {:induction false} AssembleStep(s: seq<nat>, c: nat)
    ensures Assemble(s + [c]) == Or(Assemble(s), Shift(c, |s|))
  {
    assert (s + [c])[..|s|] == s;
  }

  lemma {:induction false} AssembleOne(a: nat)
    ensures Assemble([a]) == a
  {
    AssembleStep([], a);
    assert [] + [a] == [a];
  }

  lemma {:induction false} AssembleFour(a: nat, b: nat, c: nat, d: nat)
    requires a < 16 && b < 16 && c < 16
    ensures Assemble([a, b, c, d]) == a + 16 * b + 256 * c + 4096 * d
  {
    AssembleTwo(a, b);
    AssembleStep([a, b], c);
    OrDisjointAt(a + 16 * b, c, 2, 256);
    assert [a, b] + [c] == [a, b, c];
    AssembleStep([a, b, c], d);
    OrDisjointAt(a + 16 * b + 256 * c, d, 3, 4096);
    assert [a, b, c] + [d] == [a, b, c, d];
  }

  lemma {:induction false} AssembleTwo(a: nat, b: nat)
    requires a < 16
    ensures Assemble([a, b]) == a + 16 * b
  {
    AssembleOne(a);
    AssembleStep([a], b);
    OrDisjointAt(a, b, 1, 16);
    assert [a] + [b] == [a, b];
  }

  lemma {:induction false} NibblesOf(v: Short)
    ensures Assemble([Digit(v, 0), Digit(v, 1), Digit(v, 2), Digit(v, 3)]) == v
  {
    AssembleFour(Digit(v, 0), Digit(v, 1), Digit(v, 2), Digit(v, 3));
    var a := v / 16;
    var b := a / 16;
    assert Digit(v, 1) == Digit(a, 0) && Digit(v, 2) == Digit(a, 1) == Digit(b, 0);
    assert Digit(v, 3) == Digit(a, 2) == Digit(b, 1) == b / 16;
  }

  lemma {:induction false} OrDisjointAt(x: nat, y: nat, nibbles: nat, p: nat)
    requires (nibbles == 1 && p == 16) || (nibbles == 2 && p == 256) || (nibbles == 3 && p == 4096)
    requires x < p
    ensures Shift(y, nibbles) == p * y && Or(x, p * y) == x + p * y
  {
    ShiftOne(1, nibbles);
    ShiftOne(y, nibbles);
    OrDisjoint(x, y, nibbles);
  }

  lemma {:induction false} ShiftOne(y: nat, nibbles: nat)
    ensures nibbles == 1 ==> Shift(y, nibbles) == 16 * y
    ensures nibbles == 2 ==> Shift(y, nibbles) == 256 * y
    ensures nibbles == 3 ==> Shift(y, nibbles) == 4096 * y
  {
    if nibbles > 1 { assert Shift(y, nibbles - 1) == 16 * Shift(y, nibbles - 2); }
    if nibbles > 2 { assert Shift(y, nibbles - 2) == 16 * Shift(y, nibbles - 3); }
  }

  lemma {:induction false} TwoShortsArrive(wire: seq<bool>, at: nat, low: Short, high: Short)
    requires SymbolsAt(wire, at, ShortCodes(low) + ShortCodes(high))
    ensures CanDequeue(wire, at, 40) && ShortAt(wire, at) == low && ShortAt(wire, at + 20) == high
  {
    SymbolsSplit(wire, at, ShortCodes(low), ShortCodes(high), at + 20);
    ShortArrives(wire, at, low);
    ShortArrives(wire, at + 20, high);
    DequeueSplit(wire, at, 20, 20);
  }

  lemma {:induction false} WordArrives(wire: seq<bool>, at: nat, v: Word)
    requires SymbolsAt(wire, at, WordCodes(v))
    ensures CanDequeue(wire, at, 40) && WordAt(wire, at) == v
  {
    TwoShortsArrive(wire, at, Low16(v), Low16(ShiftRight(v, 4)));
    HalvesOf(v);
  }

  lemma {:induction false} HalvesOf(v: Word)
    ensures Low16(v) + 0x1_0000 * Low16(ShiftRight(v, 4)) == v
  {
    Low16IsRemainder(v);
    var a := v / 16;
    var b := a / 16;
    var c := b / 16;
    assert ShiftRight(v, 4) == ShiftRight(a, 3) == ShiftRight(b, 2) == ShiftRight(c, 1) == c / 16;
    assert c / 16 == v / 0x1_0000;
  }

  lemma {:induction false} Low16IsRemainder(v: nat)
    ensures Low16(v) == v % 0x1_0000
  {
    if v >= 0x1_0000 { Low16IsRemainder(v - 0x1_0000); }
  }

  lemma {:induction false} WordsArrive(wire: seq<bool>, at: nat, data: seq<Word>)
    requires SymbolsAt(wire, at, WordsCodes(data))
    ensures CanDequeue(wire, at, 40 * |data|) && WordsAt(wire, at, |data|) == data
  {
    if data != [] {
      var n := |data| - 1;
      var front, last, mid := data[..n], data[n], at + 40 * n;
      LastWordSplit(wire, at, data, front, last, mid);
      WordsArrive(wire, at, front);
      WordArrives(wire, mid, last);
      OneMoreRead(wire, at, n, mid, mid + 40, front, last);
      assert data == front + [last];
    }
  }

  lemma {:induction false} LastWordSplit(wire: seq<bool>, at: nat, data: seq<Word>, front: seq<Word>, last: Word,
                                         mid: nat)
    requires SymbolsAt(wire, at, WordsCodes(data)) && data == front + [last] && mid == at + 40 * |front|
    ensures SymbolsAt(wire, at, WordsCodes(front)) && SymbolsAt(wire, mid, WordCodes(last))
  {
    assert data[..|data| - 1] == front;
    SymbolsSplit(wire, at, WordsCodes(front), WordCodes(last), mid);
  }

  lemma {:induction false} SopArrives(wire: seq<bool>, at: nat)
    requires SymbolsAt(wire, at, SOP_CODES)
    ensures FindSop(wire, at) == at + 20
  {
    SetArrives(wire, at, SOP_CODES);
  }

  /** Four symbols are dequeued as one number, the first one lowest. */
  lemma {:induction false} SetArrives(wire: seq<bool>, at: nat, codes: seq<Code>)
    requires |codes| == 4 && SymbolsAt(wire, at, codes)
    ensures CanDequeue(wire, at, 20)
    ensures Gather(wire, at, 20)
         == codes[0] as int + 32 * codes[1] as int + 1024 * codes[2] as int + 32768 * codes[3] as int
  {
    FourSymbols(wire, at);
    assert SymbolIs(wire, at + 5 * 0, codes[0]) && SymbolIs(wire, at + 5 * 1, codes[1]);
    assert SymbolIs(wire, at + 5 * 2, codes[2]) && SymbolIs(wire, at + 5 * 3, codes[3]);
  }

  lemma {:induction false} EopArrives(wire: seq<bool>, at: nat, eop: Code)
    requires SymbolsAt(wire, at, [eop])
    ensures CanDequeue(wire, at, 4) && Gather(wire, at, 4) == eop % 16
  {
    assert SymbolIs(wire, at + 5 * 0, [eop][0]);
    DequeueSplit(wire, at, 4, 1);
    var n := 4;
    GatherStep(wire, at, n, 1);
    GatherStep(wire, at + 1, n - 1, 1);
    GatherStep(wire, at + 2, n - 2, 1);
    GatherStep(wire, at + 3, n - 3, 1);
  }

  /** The parts of a packet on the wire. */
  lemma {:induction false} PartsArrive(wire: seq<bool>, start: nat, header: Short, data: seq<Word>, c: Word,
                                       eop: Code, tail: nat)
    requires SymbolsAt(wire, start, PacketCodes(header, data, c, eop)) && tail == start + 40 + 40 * |data|
    ensures SymbolsAt(wire, start, SOP_CODES) && SymbolsAt(wire, start + 20, ShortCodes(header))
    ensures SymbolsAt(wire, start + 40, WordsCodes(data)) && SymbolsAt(wire, tail, WordCodes(c))
    ensures SymbolsAt(wire, tail + 40, [eop])
  {
    FivePartsArrive(wire, start, SOP_CODES, ShortCodes(header), WordsCodes(data), WordCodes(c), [eop],
                    start + 20, start + 40, tail, tail + 40);
  }

  lemma {:induction false} FivePartsArrive(wire: seq<bool>, start: nat, a: seq<Code>, b: seq<Code>, c: seq<Code>,
                                           d: seq<Code>, e: seq<Code>,
                        atB: nat, atC: nat, atD: nat, atE: nat)
    requires SymbolsAt(wire, start, InOrder(a, b, c, d, e))
    requires atB == start + 5 * |a| && atC == atB + 5 * |b| && atD == atC + 5 * |c| && atE == atD + 5 * |d|
    ensures SymbolsAt(wire, start, a) && SymbolsAt(wire, atB, b) && SymbolsAt(wire, atC, c)
    ensures SymbolsAt(wire, atD, d) && SymbolsAt(wire, atE, e)
  {
    SymbolsSplit(wire, start, a + b + c + d, e, atE);
    SymbolsSplit(wire, start, a + b + c, d, atD);
    SymbolsSplit(wire, start, a + b, c, atC);
    SymbolsSplit(wire, start, a, b, atB);
  }

  lemma {:induction false} TrailerArrives(wire: seq<bool>, tail: nat, header: Short, data: seq<Word>, c: Word,
                                          eop: Code, ccrc: Word)
    requires SymbolsAt(wire, tail, WordCodes(c)) && SymbolsAt(wire, tail + 40, [eop])
    ensures Trailer(wire, tail, header, data, ccrc)
         == if c != ccrc then Failed(PD_RX_ERR_CRC)
            else if eop % 16 == PD_EOP then Packet(header, data) else WrongEop(tail + 44)
  {
    WordArrives(wire, tail, c);
    EopArrives(wire, tail + 40, eop);
  }

  /** What arrives of a message with the checksum c that ends with the symbol eop: an error when c is not the checksum
      of the message; else the message when the low four bits of eop are those of the end of packet; otherwise a positive
      position, which callers take for a header. */
  lemma {:induction false} RoundTrip(header: Short, data: seq<Word>, crc: (Short, seq<Word>) -> Word, eop: Code,
                                     start: nat, c: Word)
    requires |data| == header / 0x1000 % 8 && 2 * start == |Preamble()|
    ensures Receive(Wire(PacketCodes(header, data, c, eop)), start, crc)
         == if c != crc(header, data) then Failed(PD_RX_ERR_CRC)
            else if eop % 16 == PD_EOP then Packet(header, data) else WrongEop(start + 84 + 40 * |data|)
  {
    var codes := PacketCodes(header, data, c, eop);
    var wire := Wire(codes);
    WireCarries(codes, start);
    var tail := start + 40 + 40 * |data|;
    PartsArrive(wire, start, header, data, c, eop, tail);
    SopArrives(wire, start);
    ShortArrives(wire, start + 20, header);
    WordsArrive(wire, start + 40, data);
    BodyIsTrailer(wire, start + 40, header, |data|, crc);
    TrailerArrives(wire, tail, header, data, c, eop, crc(header, data));
  }

  /** A packet for a cable plug is not supported, whatever follows its start. */
  lemma {:induction false} CablePacketRejected(start: nat, sop: seq<Code>, rest: seq<Code>,
                                               crc: (Short, seq<Word>) -> Word)
    requires sop == [PD_SYNC1, PD_SYNC1, PD_SYNC3, PD_SYNC3] || sop == [PD_SYNC1, PD_SYNC3, PD_SYNC1, PD_SYNC3]
    requires 2 * start == |Preamble()|
    ensures Receive(Wire(sop + rest), start, crc) == Failed(PD_RX_ERR_UNSUPPORTED_SOP)
  {
    var wire := Wire(sop + rest);
    WireCarries(sop + rest, start);
    SymbolsSplit(wire, start, sop, rest, start + 20);
    SetArrives(wire, start, sop);
    assert FindSop(wire, start) == PD_RX_ERR_UNSUPPORTED_SOP;
  }

  /** Checksum and end of a packet lie on the wire at a position. */
  ghost predicate TrailerAt(wire: seq<bool>, at: nat, ccrc: Word) {
    && CanDequeue(wire, at, 40) && WordAt(wire, at) == ccrc
    && CanDequeue(wire, at + 40, 4) && Gather(wire, at + 40, 4) == PD_EOP
  }

  /** A whole packet lies on the wire behind the start of packet that ends at a position. */
  ghost predicate PacketAt(wire: seq<bool>, at: nat, header: Short, payload: seq<Word>, crc: (Short, seq<Word>) -> Word)
  {
    && CanDequeue(wire, at, 20) && ShortAt(wire, at) == header && |payload| == header / 0x1000 % 8
    && CanDequeue(wire, at + 20, 40 * |payload|) && WordsAt(wire, at + 20, |payload|) == payload
    && TrailerAt(wire, at + 20 + 40 * |payload|, crc(header, payload))
  }

  ghost predicate SopAt(wire: seq<bool>, at: nat) { CanDequeue(wire, at, 20) && Gather(wire, at, 20) == PD_SOP }

  /** Nothing is accepted but a packet that is there as a whole, on a 20-bit boundary, with its checksum and its end. */
  lemma {:induction false} AcceptedIsThere(wire: seq<bool>, start: int, crc: (Short, seq<Word>) -> Word) returns (sop: nat)
    requires Receive(wire, start, crc).Packet?
    ensures start <= sop && (sop - start) % 20 == 0 && SopAt(wire, sop)
    ensures var r := Receive(wire, start, crc); PacketAt(wire, sop + 20, r.header, r.payload, crc)
  {
    sop := SopIsThere(wire, start);
    PacketIsThere(wire, sop + 20, crc);
  }

  lemma {:induction false} PacketIsThere(wire: seq<bool>, at: nat, crc: (Short, seq<Word>) -> Word)
    requires AfterSop(wire, at, crc).Packet?
    ensures var r := AfterSop(wire, at, crc); PacketAt(wire, at, r.header, r.payload, crc)
  {
    var header := ShortAt(wire, at);
    var payload := BodyIsThere(wire, at + 20, header, header / 0x1000 % 8, crc);
  }

  lemma {:induction false} BodyIsThere(wire: seq<bool>, at: nat, header: Short, cnt: nat, crc: (Short, seq<Word>) -> Word)
    returns (payload: seq<Word>)
    requires Body(wire, at, header, cnt, crc).Packet?
    ensures Body(wire, at, header, cnt, crc) == Packet(header, payload) && |payload| == cnt
    ensures CanDequeue(wire, at, 40 * cnt) && WordsAt(wire, at, cnt) == payload
    ensures TrailerAt(wire, at + 40 * cnt, crc(header, payload))
  {
    payload := WordsAt(wire, at, cnt);
    BodyIsTrailer(wire, at, header, cnt, crc);
    TrailerIsThere(wire, at + 40 * cnt, header, payload, crc(header, payload));
  }

  lemma {:induction false} TrailerIsThere(wire: seq<bool>, at: nat, header: Short, payload: seq<Word>, ccrc: Word)
    requires Trailer(wire, at, header, payload, ccrc).Packet?
    ensures Trailer(wire, at, header, payload, ccrc) == Packet(header, payload) && TrailerAt(wire, at, ccrc)
  {
  }

  lemma {:induction false} SopIsThere(wire: seq<bool>, bit: int) returns (sop: nat)
    requires bit > 0 && FindSop(wire, bit) > 0
    ensures bit <= sop && (sop - bit) % 20 == 0 && FindSop(wire, bit) == sop + 20 && SopAt(wire, sop)
    decreases |wire| - bit
  {
    if Gather(wire, bit, 20) == PD_SOP {
      sop := bit;
    } else {
      sop := SopIsThere(wire, bit + 20);
    }
  }

  /** Every message that is sent is received as it was. */
  method Loopback(header: Short, data: seq<Word>, crc: (Short, seq<Word>) -> Word) returns (r: int,
                  payload: array<Word>)
    requires |data| == header / 0x1000 % 8
    ensures r == header && payload.Length == 7 && payload[..|data|] == data
  {
    var tx := new Transmitter();
    var off := tx.PrepareMessage(header, |data|, data, crc);
    var start := |Preamble()| / 2;
    RoundTrip(header, data, crc, PD_EOP, start, crc(header, data));
    payload := new Word[7];
    r := AnalyzeRx(tx.samples, start, crc, payload);
  }
}
