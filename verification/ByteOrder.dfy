/**
 The four-byte length prefix: written by the C++ side through to_be32 and a memcpy
 on a little-endian host, read by the gateway as a big-endian number.
 Masks and shifts of unsigned words are written with / and %.
 */
module ByteOrder {

  type byte = n: nat | n < 0x100
  type uint32 = n: nat | n < 0x1_0000_0000

  /** The word whose bytes, least significant first, are b0, b1, b2, b3. */
  function Word(b0: byte, b1: byte, b2: byte, b3: byte): uint32 {
    b0 as int + 0x100 * (b1 as int + 0x100 * (b2 as int + 0x100 * b3 as int))
  }

  function ToBe32(v: uint32): uint32 {
    Word(v / 0x100 / 0x100 / 0x100, v / 0x100 / 0x100 % 0x100, v / 0x100 % 0x100, v % 0x100)
  }

  function FromBe32(v: uint32): uint32 {
    ToBe32(v)
  }

  /** memcpy of a word into memory, and back, on a little-endian host. */
  function StoreWord(v: uint32): (b: seq<byte>)
    ensures |b| == 4
  {
    [v % 0x100, v / 0x100 % 0x100, v / 0x100 / 0x100 % 0x100, v / 0x100 / 0x100 / 0x100]
  }

  function LoadWord(b: seq<byte>): uint32
    requires |b| == 4
  {
    Word(b[0], b[1], b[2], b[3])
  }

  /** The four bytes of a length, most significant first: what the prefix of a frame is. */
  function BigEndian(v: uint32): (b: seq<byte>)
    ensures |b| == 4
  {
    [v / 0x100 / 0x100 / 0x100, v / 0x100 / 0x100 % 0x100, v / 0x100 % 0x100, v % 0x100]
  }

  /** The number that four bytes stand for, most significant first. */
  function PrefixLength(b: seq<byte>): uint32
    requires |b| == 4
  {
    Word(b[3], b[2], b[1], b[0])
  }

  lemma Digits(b0: byte, b1: byte, b2: byte, b3: byte)
    ensures var v := Word(b0, b1, b2, b3);
            v % 0x100 == b0 && v / 0x100 % 0x100 == b1 &&
            v / 0x100 / 0x100 % 0x100 == b2 && v / 0x100 / 0x100 / 0x100 == b3
  {
  }

  /** The prefix is a faithful code: every length comes back, and every four bytes are the prefix of one length. */
  lemma PrefixRoundTrip(v: uint32, b: seq<byte>)
    requires |b| == 4
    ensures PrefixLength(BigEndian(v)) == v
    ensures BigEndian(PrefixLength(b)) == b
  {
    Digits(b[3], b[2], b[1], b[0]);
  }

  /** What the first four bytes of a frame announce. */
  function Announced(b: seq<byte>): int
    requires |b| >= 4
  {
    b[0] as int * 0x100_0000 + b[1] as int * 0x1_0000 + b[2] as int * 0x100 + b[3] as int
  }

  /** The first byte of a prefix is the most significant one. */
  lemma MostSignificantFirst(b: seq<byte>)
    requires |b| == 4
    ensures PrefixLength(b) == Announced(b)
  {
  }

  /** Swapping and then storing a word little-endian is writing it big-endian. */
  lemma StoreSwapped(v: uint32)
    ensures StoreWord(ToBe32(v)) == BigEndian(v)
  {
    Digits(v / 0x100 / 0x100 / 0x100, v / 0x100 / 0x100 % 0x100, v / 0x100 % 0x100, v % 0x100);
  }

  /** Loading a word little-endian and then swapping it is reading it big-endian. */
  lemma LoadSwapped(b: seq<byte>)
    requires |b| == 4
    ensures FromBe32(LoadWord(b)) == PrefixLength(b)
  {
    Digits(b[0], b[1], b[2], b[3]);
  }
}
