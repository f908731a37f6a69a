/**
  Machine words as integers with their width written out, and memory as a sequence of
  big-endian words.  `Bits` proves that the masks and shifts of the source are this
  arithmetic, and `PhysicalMemories` that its byte loops read and write these words.
*/
module Words {
  type uint32 = x: int | 0 <= x < 0x1_0000_0000
  type int32 = x: int | -0x8000_0000 <= x < 0x8000_0000
  type uint8 = x: int | 0 <= x < 256

  const ADDRESSES := 0x100_0000
  const WORDS := 0x40_0000

  function U32(x: int): uint32
  {
    x % 0x1_0000_0000
  }

  /** What the address bus carries. */
  function U24(x: int): uint32
  {
    x % ADDRESSES
  }

  function I32(x: int): int32
  {
    var u := x % 0x1_0000_0000;
    if u < 0x8000_0000 then u else u - 0x1_0000_0000
  }

  /** A register that goes out to a snapshot of unsigned words comes back as it was. */
  lemma SignRoundTrip(x: int32)
    ensures I32(U32(x)) == x
  {
  }

  /** The word that holds the byte address: the upper eight bits and the lower two are masked off. */
  function Index(address: int): (i: nat)
    ensures i < WORDS
  {
    address % ADDRESSES / 4
  }

  lemma IndexOfWord(x: nat)
    requires x < WORDS
    ensures Index(4 * x) == x
  {
  }

  /** Addresses that wrap around at 32 bits still name the same word. */
  lemma IndexWraps(x: int)
    ensures Index(U32(x)) == Index(x)
  {
    var q := x / 0x1_0000_0000;
    assert x == U32(x) + ADDRESSES * (256 * q);
    ModuloShift(U32(x), 256 * q);
  }

  lemma ModuloShift(x: int, k: int)
    ensures (x + ADDRESSES * k) % ADDRESSES == x % ADDRESSES
  {
  }

  function PageOf(address: uint32): nat
  {
    address / 256
  }

  function OffsetOf(address: uint32): nat
  {
    address % 256
  }

  /** The frame number part of an address. */
  function FrameBase(address: uint32): (f: uint32)
    ensures f % 256 == 0 && f <= address < f + 256
  {
    256 * (address / 256)
  }

  type Memory = m: seq<uint32> | |m| == WORDS witness seq(WORDS, _ => 0)
}
