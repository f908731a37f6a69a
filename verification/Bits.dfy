/**
  The masks and shifts of the source on 32-bit words, and the arithmetic that the other
  modules write for them.  A word is split into parts of exact width; joining the parts
  back together is the only fact about the two views of a word that has to be bridged.
*/
module Bits {

  // ----- joining parts

  lemma Join4(hi: bv28, lo: bv4)
    ensures (((hi as bv32) << 4) | (lo as bv32)) as int == hi as int * 16 + lo as int
  {
  }

  lemma Join8(hi: bv24, lo: bv8)
    ensures (((hi as bv32) << 8) | (lo as bv32)) as int == hi as int * 256 + lo as int
  {
  }

  lemma Join24(hi: bv8, lo: bv24)
    ensures (((hi as bv32) << 24) | (lo as bv32)) as int == hi as int * 0x100_0000 + lo as int
  {
  }

  lemma Join22And2(hi: bv22, lo: bv2)
    ensures (((hi as bv24) << 2) | (lo as bv24)) as int == hi as int * 4 + lo as int
  {
  }

  lemma Join16And8(hi: bv16, lo: bv8)
    ensures (((hi as bv24) << 8) | (lo as bv24)) as int == hi as int * 256 + lo as int
  {
  }

  lemma Wide4(a: bv4)
    ensures (a as bv32) as int == a as int
  {
  }

  lemma Wide8(a: bv8)
    ensures (a as bv32) as int == a as int
  {
  }

  lemma Wide24(a: bv24)
    ensures (a as bv32) as int == a as int
  {
  }

  lemma Wide28(a: bv28)
    ensures (a as bv32) as int == a as int
  {
  }

  // ----- the expressions of the source

  /** `data & ((1 << 8) - 1)`, the byte that a word write stores. */
  function LowByte(a: bv32): bv32
  {
    a & 0xFF
  }

  /** `data >> 8`, and the page number of an address. */
  function ShiftByte(a: bv32): bv32
  {
    a >> 8
  }

  /** `data << 8 | byte`, a step of reading a word. */
  function TakeByte(a: bv32, b: bv8): bv32
  {
    (a << 8) | (b as bv32)
  }

  /** `address & word_start_address_mask`. */
  function WordStart(a: bv32): bv32
  {
    a & 0x00FF_FFFC
  }

  /** `frame_address & ~FRAME_OFFSET_MASK | (virtual_address & FRAME_OFFSET_MASK)`; the first mask is 0xFFFFFF00. */
  function EffectiveAddress(frame: bv32, va: bv32): bv32
  {
    FrameBits(frame) | LowByte(va)
  }

  function FrameBits(a: bv32): bv32
  {
    a & 0xFFFF_FF00
  }

  /** `physical_address & FRAME_ADDRESS_MASK`. */
  function FrameStart(a: bv32): bv32
  {
    a & 0x00FF_FF00
  }

  /** `get_nibble_range(item, 5, 0)`, the address field. */
  function LowNibbles6(a: bv32): bv32
  {
    a & 0x00FF_FFFF
  }

  function LowNibble(a: bv32): bv32
  {
    a & 0xF
  }

  function ShiftNibble(a: bv32): bv32
  {
    a >> 4
  }

  // ----- bytes

  function Hi24(a: bv32): bv24
  {
    (a >> 8) as bv24
  }

  function Lo8(a: bv32): bv8
  {
    (a & 0xFF) as bv8
  }

  lemma ByteParts(a: bv32)
    ensures a == ((Hi24(a) as bv32) << 8) | (Lo8(a) as bv32)
    ensures ShiftByte(a) == Hi24(a) as bv32 && LowByte(a) == Lo8(a) as bv32
  {
  }

  lemma BytesAsInts(a: bv32) returns (hi: int, lo: int)
    ensures a as int == hi * 256 + lo && 0 <= lo < 256
    ensures ShiftByte(a) as int == hi == Hi24(a) as int && LowByte(a) as int == lo == Lo8(a) as int
  {
    hide ShiftByte, LowByte, Hi24, Lo8;
    ByteParts(a);
    Join8(Hi24(a), Lo8(a));
    Wide24(Hi24(a));
    Wide8(Lo8(a));
    hi, lo := Hi24(a) as int, Lo8(a) as int;
  }

  lemma Quotient256(x: int, hi: int, lo: int)
    requires x == hi * 256 + lo && 0 <= lo < 256
    ensures x / 256 == hi && x % 256 == lo
  {
  }

  /** Shifting and masking a byte off are dividing by 256 and the remainder. */
  lemma ByteArithmetic(a: bv32)
    ensures ShiftByte(a) as int == a as int / 256
    ensures LowByte(a) as int == a as int % 256
  {
    hide ShiftByte, LowByte, Hi24, Lo8;
    var hi, lo := BytesAsInts(a);
    Quotient256(a as int, hi, lo);
  }

  lemma FrameBitsByShifts(a: bv32)
    ensures FrameBits(a) == ShiftByte(a) << 8
  {
  }

  lemma HighPart(a: bv32)
    ensures FrameBits(a) == (Hi24(a) as bv32) << 8
  {
    hide FrameBits, ShiftByte, Hi24;
    FrameBitsByShifts(a);
    ShiftIsHigh(a);
  }

  lemma ShiftIsHigh(a: bv32)
    ensures ShiftByte(a) == Hi24(a) as bv32
  {
  }

  lemma EffectiveParts(frame: bv32, va: bv32)
    ensures EffectiveAddress(frame, va) == ((Hi24(frame) as bv32) << 8) | (Lo8(va) as bv32)
  {
    hide Hi24, Lo8, FrameBits, LowByte, ShiftByte;
    HighPart(frame);
    ByteParts(va);
  }

  /** The effective address is the base of the frame plus the offset in the page. */
  lemma EffectiveArithmetic(frame: bv32, va: bv32)
    ensures EffectiveAddress(frame, va) as int == frame as int - frame as int % 256 + va as int % 256
  {
    hide EffectiveAddress, ShiftByte, LowByte, Hi24, Lo8;
    EffectiveParts(frame, va);
    Join8(Hi24(frame), Lo8(va));
    var hi, lo := BytesAsInts(frame);
    var hi', lo' := BytesAsInts(va);
    Quotient256(frame as int, hi, lo);
    Quotient256(va as int, hi', lo');
  }

  // ----- the address bus

  function Hi8(a: bv32): bv8
  {
    (a >> 24) as bv8
  }

  function Lo24(a: bv32): bv24
  {
    (a & 0x00FF_FFFF) as bv24
  }

  lemma BusParts(a: bv32)
    ensures a == ((Hi8(a) as bv32) << 24) | (Lo24(a) as bv32)
    ensures LowNibbles6(a) == Lo24(a) as bv32
  {
  }

  lemma Quotient24(x: int, hi: int, lo: int)
    requires x == hi * 0x100_0000 + lo && 0 <= lo < 0x100_0000
    ensures x % 0x100_0000 == lo
  {
  }

  lemma BusAsInts(a: bv32) returns (hi: int, lo: int)
    ensures a as int == hi * 0x100_0000 + lo && 0 <= lo < 0x100_0000
    ensures LowNibbles6(a) as int == lo == Lo24(a) as int
  {
    hide LowNibbles6, Hi8, Lo24;
    BusParts(a);
    Join24(Hi8(a), Lo24(a));
    Wide24(Lo24(a));
    hi, lo := Hi8(a) as int, Lo24(a) as int;
  }

  lemma BusArithmetic(a: bv32)
    ensures Lo24(a) as int == a as int % 0x100_0000
    ensures LowNibbles6(a) as int == a as int % 0x100_0000
  {
    hide LowNibbles6, Hi8, Lo24;
    var hi, lo := BusAsInts(a);
    Quotient24(a as int, hi, lo);
  }

  function Mid22(a: bv32): bv22
  {
    ((a & 0x00FF_FFFC) >> 2) as bv22
  }

  function Lo2(a: bv32): bv2
  {
    (a & 3) as bv2
  }

  lemma WordParts(a: bv32)
    ensures Lo24(a) == ((Mid22(a) as bv24) << 2) | (Lo2(a) as bv24)
    ensures WordStart(a) == ((Mid22(a) as bv24) << 2) as bv32
  {
  }

  lemma Quotient4(x: int, hi: int, lo: int)
    requires x == hi * 4 + lo && 0 <= lo < 4
    ensures x / 4 == hi
  {
  }

  lemma Shift22(hi: bv22)
    ensures (((hi as bv24) << 2) as bv32) as int == hi as int * 4
  {
  }

  lemma WordAsInts(a: bv32) returns (hi: int, lo: int)
    ensures Lo24(a) as int == hi * 4 + lo && 0 <= lo < 4
    ensures WordStart(a) as int == hi * 4
  {
    hide WordStart, Lo24, Mid22, Lo2;
    WordParts(a);
    Join22And2(Mid22(a), Lo2(a));
    Shift22(Mid22(a));
    hi, lo := Mid22(a) as int, Lo2(a) as int;
  }

  /** The word mask drops the upper byte and the lower two bits. */
  lemma WordArithmetic(a: bv32)
    ensures WordStart(a) as int == a as int % 0x100_0000 / 4 * 4
  {
    hide WordStart, Lo24, LowNibbles6;
    var hi, lo := WordAsInts(a);
    BusArithmetic(a);
    Quotient4(Lo24(a) as int, hi, lo);
  }

  function Mid16(a: bv32): bv16
  {
    ((a & 0x00FF_FF00) >> 8) as bv16
  }

  lemma FrameParts(a: bv32)
    ensures Lo24(a) == ((Mid16(a) as bv24) << 8) | (Lo8(a) as bv24)
    ensures FrameStart(a) == ((Mid16(a) as bv24) << 8) as bv32
  {
  }

  lemma Shift16(hi: bv16)
    ensures (((hi as bv24) << 8) as bv32) as int == hi as int * 256
  {
  }

  lemma FrameAsInts(a: bv32) returns (hi: int, lo: int)
    ensures Lo24(a) as int == hi * 256 + lo && 0 <= lo < 256
    ensures FrameStart(a) as int == hi * 256
  {
    hide FrameStart, Lo24, Mid16, Lo8;
    FrameParts(a);
    Join16And8(Mid16(a), Lo8(a));
    Shift16(Mid16(a));
    hi, lo := Mid16(a) as int, Lo8(a) as int;
  }

  /** The frame mask drops the upper byte and the page offset. */
  lemma FrameArithmetic(a: bv32)
    ensures FrameStart(a) as int == a as int % 0x100_0000 - a as int % 0x100_0000 % 256
  {
    hide FrameStart, Lo24, LowNibbles6;
    var hi, lo := FrameAsInts(a);
    BusArithmetic(a);
    Quotient256(Lo24(a) as int, hi, lo);
  }

  /** Reading a byte into a word: what is shifted out is lost. */
  lemma TakeParts(a: bv32, b: bv8)
    ensures TakeByte(a, b) == ((Lo24(a) as bv32) << 8) | (b as bv32)
  {
  }

  lemma TakeArithmetic(a: bv32, b: bv8)
    ensures TakeByte(a, b) as int == a as int % 0x100_0000 * 256 + b as int
  {
    hide TakeByte, Lo24, LowNibbles6;
    TakeParts(a, b);
    BusArithmetic(a);
    Join8(Lo24(a), b);
  }

  // ----- nibbles

  function Hi28(a: bv32): bv28
  {
    (a >> 4) as bv28
  }

  function Lo4(a: bv32): bv4
  {
    (a & 0xF) as bv4
  }

  lemma NibbleParts(a: bv32)
    ensures a == ((Hi28(a) as bv32) << 4) | (Lo4(a) as bv32)
    ensures ShiftNibble(a) == Hi28(a) as bv32 && LowNibble(a) == Lo4(a) as bv32
  {
  }

  lemma Quotient16(x: int, hi: int, lo: int)
    requires x == hi * 16 + lo && 0 <= lo < 16
    ensures x / 16 == hi && x % 16 == lo
  {
  }

  lemma NibblesAsInts(a: bv32) returns (hi: int, lo: int)
    ensures a as int == hi * 16 + lo && 0 <= lo < 16
    ensures ShiftNibble(a) as int == hi && LowNibble(a) as int == lo
  {
    hide ShiftNibble, LowNibble, Hi28, Lo4;
    NibbleParts(a);
    Join4(Hi28(a), Lo4(a));
    Wide28(Hi28(a));
    Wide4(Lo4(a));
    hi, lo := Hi28(a) as int, Lo4(a) as int;
  }

  lemma NibbleArithmetic(a: bv32)
    ensures ShiftNibble(a) as int == a as int / 16
    ensures LowNibble(a) as int == a as int % 16
  {
    hide ShiftNibble, LowNibble;
    var hi, lo := NibblesAsInts(a);
    Quotient16(a as int, hi, lo);
  }

  /** `get_nibble_range(item, k, k)`, that is `(item >> (k * 4)) & ((1 << 4) - 1)`, for each `k`. */
  function NibbleOf(a: bv32, k: nat): bv32
    requires k < 8
  {
    if k == 0 then a & 0xF
    else if k == 1 then (a >> 4) & 0xF
    else if k == 2 then (a >> 8) & 0xF
    else if k == 3 then (a >> 12) & 0xF
    else if k == 4 then (a >> 16) & 0xF
    else if k == 5 then (a >> 20) & 0xF
    else if k == 6 then (a >> 24) & 0xF
    else (a >> 28) & 0xF
  }

  function ShiftNibbles(a: bv32, k: nat): bv32
  {
    if k == 0 then a else ShiftNibble(ShiftNibbles(a, k - 1))
  }

  lemma ShiftAgain(a: bv32)
    ensures ShiftNibble(a) == a >> 4 && ShiftNibble(a >> 4) == a >> 8 && ShiftNibble(a >> 8) == a >> 12
    ensures ShiftNibble(a >> 12) == a >> 16 && ShiftNibble(a >> 16) == a >> 20
    ensures ShiftNibble(a >> 20) == a >> 24 && ShiftNibble(a >> 24) == a >> 28
  {
  }

  lemma ShiftsCompose(a: bv32)
    ensures ShiftNibbles(a, 1) == a >> 4 && ShiftNibbles(a, 2) == a >> 8 && ShiftNibbles(a, 3) == a >> 12
    ensures ShiftNibbles(a, 4) == a >> 16 && ShiftNibbles(a, 5) == a >> 20 && ShiftNibbles(a, 6) == a >> 24
    ensures ShiftNibbles(a, 7) == a >> 28
  {
    hide ShiftNibble;
    ShiftAgain(a);
    assert ShiftNibbles(a, 1) == ShiftNibble(ShiftNibbles(a, 0));
    assert ShiftNibbles(a, 2) == ShiftNibble(ShiftNibbles(a, 1));
    assert ShiftNibbles(a, 3) == ShiftNibble(ShiftNibbles(a, 2));
    assert ShiftNibbles(a, 4) == ShiftNibble(ShiftNibbles(a, 3));
    assert ShiftNibbles(a, 5) == ShiftNibble(ShiftNibbles(a, 4));
    assert ShiftNibbles(a, 6) == ShiftNibble(ShiftNibbles(a, 5));
    assert ShiftNibbles(a, 7) == ShiftNibble(ShiftNibbles(a, 6));
  }

  lemma NibbleOfByShifts(a: bv32, k: nat)
    requires k < 8
    ensures NibbleOf(a, k) == LowNibble(ShiftNibbles(a, k))
  {
    hide ShiftNibbles;
    ShiftsCompose(a);
    assert ShiftNibbles(a, 0) == a by { NoShift(a); }
  }

  lemma NoShift(a: bv32)
    ensures ShiftNibbles(a, 0) == a
  {
  }
}

/** AND, OR and XOR bit by bit, against the operators of the machine. */
module Logic {
  import opened Words
  import opened Processor

  function And(a: bv32, b: bv32): bv32
  {
    a & b
  }

  function Or(a: bv32, b: bv32): bv32
  {
    a | b
  }

  function Xor(a: bv32, b: bv32): bv32
  {
    a ^ b
  }

  function Operated(op: nat, a: bv32, b: bv32): bv32
  {
    if op == OP_AND then And(a, b) else if op == OP_OR then Or(a, b) else Xor(a, b)
  }

  function Half(a: bv32): bv32
  {
    a >> 1
  }

  function Last(a: bv32): bv32
  {
    a & 1
  }

  lemma AndHalf(a: bv32, b: bv32)
    ensures Half(And(a, b)) == And(Half(a), Half(b))
  {
  }

  lemma AndLast(a: bv32, b: bv32)
    ensures Last(And(a, b)) == And(Last(a), Last(b))
  {
  }

  lemma OrHalf(a: bv32, b: bv32)
    ensures Half(Or(a, b)) == Or(Half(a), Half(b))
  {
  }

  lemma OrLast(a: bv32, b: bv32)
    ensures Last(Or(a, b)) == Or(Last(a), Last(b))
  {
  }

  lemma XorHalf(a: bv32, b: bv32)
    ensures Half(Xor(a, b)) == Xor(Half(a), Half(b))
  {
  }

  lemma XorLast(a: bv32, b: bv32)
    ensures Last(Xor(a, b)) == Xor(Last(a), Last(b))
  {
  }

  lemma OperatedParts(op: nat, a: bv32, b: bv32)
    ensures Half(Operated(op, a, b)) == Operated(op, Half(a), Half(b))
    ensures Last(Operated(op, a, b)) == Operated(op, Last(a), Last(b))
  {
    hide And, Or, Xor, Half, Last;
    AndHalf(a, b);
    AndLast(a, b);
    OrHalf(a, b);
    OrLast(a, b);
    XorHalf(a, b);
    XorLast(a, b);
  }

  function Hi31(a: bv32): bv31
  {
    (a >> 1) as bv31
  }

  function Lo1(a: bv32): bv1
  {
    (a & 1) as bv1
  }

  lemma Join31And1(hi: bv31, lo: bv1)
    ensures (((hi as bv32) << 1) | (lo as bv32)) as int == hi as int * 2 + lo as int
  {
  }

  lemma Wide31(a: bv31)
    ensures (a as bv32) as int == a as int
  {
  }

  lemma Wide1(a: bv1)
    ensures (a as bv32) as int == a as int
  {
  }

  lemma BitParts(a: bv32)
    ensures a == ((Hi31(a) as bv32) << 1) | (Lo1(a) as bv32)
    ensures Half(a) == Hi31(a) as bv32 && Last(a) == Lo1(a) as bv32
  {
  }

  lemma BitsAsInts(a: bv32)
    ensures a as int == 2 * Half(a) as int + Last(a) as int && Last(a) as int < 2
  {
    hide Hi31, Lo1, Half, Last;
    BitParts(a);
    Join31And1(Hi31(a), Lo1(a));
    Wide31(Hi31(a));
    Wide1(Lo1(a));
  }

  lemma LastIsBit(a: bv32)
    ensures Last(a) == 0 || Last(a) == 1
  {
  }

  lemma OneBitTable(op: nat, a: bv32, b: bv32)
    requires (a == 0 || a == 1) && (b == 0 || b == 1)
    ensures Operated(op, a, b) as int == BitOf(op, a as int, b as int)
  {
  }

  function Pow2(n: nat): (p: nat)
    ensures p > 0
  {
    if n == 0 then 1 else 2 * Pow2(n - 1)
  }

  /** Two words as halves and last bits, and what the operator makes of them. */
  lemma LastBits(op: nat, a: bv32, b: bv32) returns (x: nat, p: nat, y: nat, q: nat)
    ensures p < 2 && q < 2 && x == Half(a) as int && y == Half(b) as int
    ensures a as int == 2 * x + p && b as int == 2 * y + q
    ensures Operated(op, a, b) as int == 2 * Operated(op, Half(a), Half(b)) as int + BitOf(op, p, q)
  {
    hide Operated, BitOf, Half, Last;
    BitsAsInts(a);
    BitsAsInts(b);
    BitsAsInts(Operated(op, a, b));
    OperatedParts(op, a, b);
    LastIsBit(a);
    LastIsBit(b);
    OneBitTable(op, Last(a), Last(b));
    x, p, y, q := Half(a) as int, Last(a) as int, Half(b) as int, Last(b) as int;
  }

  /** What the processor computes bit by bit is the operator of the source. */
  lemma {:induction false} BitwiseIsOperator(op: nat, a: bv32, b: bv32, v: nat, w: nat, n: nat)
    requires v == a as int && w == b as int && v < Pow2(n) && w < Pow2(n)
    ensures Bitwise(op, v, w, n) == Operated(op, a, b) as int
    decreases n
  {
    hide Operated, BitOf, Half, Last, Bitwise;
    if n == 0 {
      NoBits(op, a, b);
      NoBitwise(op, v, w);
    } else {
      var x, p, y, q := LastBits(op, a, b);
      BitwiseIsOperator(op, Half(a), Half(b), x, y, n - 1);
      BitwiseStep(op, x, p, y, q, n);
    }
  }

  lemma BitwiseStep(op: nat, x: nat, p: nat, y: nat, q: nat, n: nat)
    requires p < 2 && q < 2 && n > 0
    ensures Bitwise(op, 2 * x + p, 2 * y + q, n) == 2 * Bitwise(op, x, y, n - 1) + BitOf(op, p, q)
  {
    hide BitOf;
  }

  lemma NoBitwise(op: nat, x: nat, y: nat)
    ensures Bitwise(op, x, y, 0) == 0
  {
  }

  lemma NoBits(op: nat, a: bv32, b: bv32)
    requires a as int == 0 && b as int == 0
    ensures Operated(op, a, b) as int == 0
  {
    assert a == 0 && b == 0;
  }

  /** On 32 bits that holds for every two words. */
  lemma LogicIsOperator(op: nat, a: bv32, b: bv32, x: uint32, y: uint32)
    requires x == a as int && y == b as int
    ensures Bitwise(op, x, y, 32) == Operated(op, a, b) as int
  {
    hide Operated, Bitwise;
    Pow2Of32();
    BitwiseIsOperator(op, a, b, x, y, 32);
  }

  lemma Pow2Of32()
    ensures Pow2(32) == 0x1_0000_0000
  {
    assert Pow2(8) == 256;
    assert Pow2(16) == 256 * Pow2(8);
    assert Pow2(24) == 256 * Pow2(16);
    assert Pow2(32) == 256 * Pow2(24);
  }
}

/** The same expressions against the functions that the model is written with. */
module MachineBits {
  import opened Division
  import opened Words
  import opened PhysicalMemories
  import opened Translation
  import opened Processor
  import opened Bits

  lemma {:induction false} ShiftsDivide(a: bv32, x: uint32, k: nat)
    requires x == a as int
    ensures ShiftNibbles(a, k) as int == Shifted(x, k)
    decreases k
  {
    hide ShiftNibble;
    if k > 0 {
      ShiftsDivide(a, x, k - 1);
      NibbleArithmetic(ShiftNibbles(a, k - 1));
    }
  }

  /** The nibbles that the processor decodes are the digits of the instruction in base sixteen. */
  lemma NibbleIsDigit(a: bv32, x: uint32, k: nat)
    requires x == a as int && k < 8
    ensures NibbleOf(a, k) as int == Nibbles(x, k, k)
  {
    hide NibbleOf, LowNibble, ShiftNibbles, ShiftNibble, Shifted;
    NibbleOfByShifts(a, k);
    NibbleArithmetic(ShiftNibbles(a, k));
    ShiftsDivide(a, x, k);
    OneNibble(x, k);
  }

  lemma ReadStepIsArithmetic(a: bv32, b: bv8)
    requires 0 <= a as int < 0x1_0000_0000
    ensures TakeByte(a, b) as int == U32(a as int * 256) + b as int
  {
    hide TakeByte, Lo24;
    TakeArithmetic(a, b);
    ShiftDropsTop(a as int);
  }

  lemma ShiftDropsTop(x: int)
    ensures x * 256 % 0x1_0000_0000 == x % 0x100_0000 * 256
  {
  }

  /** Four such steps read the big-endian word. */
  lemma ReadLoopIsBigEndian(a: bv8, b: bv8, c: bv8, d: bv8, w: uint8, x: uint8, y: uint8, z: uint8)
    requires w == a as int && x == b as int && y == c as int && z == d as int
    ensures TakeByte(TakeByte(TakeByte(TakeByte(0, a), b), c), d) as int == BigEndian(w, x, y, z)
  {
    hide TakeByte, BigEndian;
    var p := TakeStep(0, a, 0, w);
    var q := TakeStep(TakeByte(0, a), b, p, x);
    var r := TakeStep(TakeByte(TakeByte(0, a), b), c, q, y);
    var v := TakeStep(TakeByte(TakeByte(TakeByte(0, a), b), c), d, r, z);
    BytesAdd(p, q, r, v, w, x, y, z);
  }

  lemma TakeStep(p: bv32, a: bv8, v: int, w: uint8) returns (r: int)
    requires v == p as int && w == a as int
    ensures r == TakeByte(p, a) as int == v % 0x100_0000 * 256 + w
  {
    hide TakeByte;
    TakeArithmetic(p, a);
    r := v % 0x100_0000 * 256 + w;
  }

  lemma BytesAdd(p: int, q: int, r: int, s: int, a: uint8, b: uint8, c: uint8, d: uint8)
    requires p == a && q == p % 0x100_0000 * 256 + b && r == q % 0x100_0000 * 256 + c && s == r % 0x100_0000 * 256 + d
    ensures s == BigEndian(a, b, c, d)
  {
    assert q < 0x1_0000 && r < 0x100_0000;
  }

  /** The address field of LD, ST and the branches is the lower twenty-four bits. */
  lemma AddressFieldIsArithmetic(a: bv32, x: uint32)
    requires x == a as int
    ensures LowNibbles6(a) as int == U24(x) == AddressField(x)
  {
    hide LowNibbles6, Lo24;
    BusArithmetic(a);
    SixNibblesOf(x);
  }

  lemma WordMaskIsArithmetic(a: bv32)
    ensures WordStart(a) as int == 4 * Index(a as int)
  {
    hide WordStart;
    WordArithmetic(a);
  }

  lemma PageMaskIsArithmetic(a: bv32)
    requires 0 <= a as int < 0x1_0000_0000
    ensures ShiftByte(a) as int == PageOf(a as int) && LowByte(a) as int == OffsetOf(a as int)
  {
    hide ShiftByte, LowByte;
    ByteArithmetic(a);
  }

  lemma FrameMaskIsArithmetic(a: bv32)
    ensures FrameStart(a) as int == FrameBase(U24(a as int))
  {
    hide FrameStart;
    FrameArithmetic(a);
  }

  lemma GlueIsArithmetic(frame: bv32, va: bv32, f: uint32, v: uint32)
    requires f == frame as int && v == va as int
    ensures EffectiveAddress(frame, va) as int == Glue(f, v)
  {
    hide EffectiveAddress;
    EffectiveArithmetic(frame, va);
  }
}
