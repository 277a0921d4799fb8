/** Unsigned machine integers and the little-endian view of a 32-bit word. */
module Words {

  const ByteModulus: nat := 0x100
  const WordModulus: nat := 0x1_0000_0000

  /** An `unsigned char` / one byte of memory. */
  type u8 = x: int | 0 <= x < 0x100

  /** A `uint32_t`: the emulator's `word_t` and `paddr_t`. */
  type u32 = x: int | 0 <= x < 0x1_0000_0000

  /** Conversion of any integer to `uint32_t`: reduction modulo 2^32, the
      wrap-around of unsigned addition in C. */
  function Wrap32(x: int): (r: u32)
    ensures 0 <= x < WordModulus ==> r == x
    ensures (x - r) % WordModulus == 0
  {
    x % WordModulus
  }

  /** `v >> (8 * j)` for a non-negative `v`. */
  function ShiftBytes(v: nat, j: nat): nat
  {
    if j == 0 then v else ShiftBytes(v, j - 1) / 256
  }

  /** Byte `j` of a word: `(v >> (8 * j)) & 0xFF`. */
  function ByteOf(v: u32, j: nat): u8
    requires j < 4
  {
    ShiftBytes(v, j) % 256
  }

  /** The four bytes of a word, least-significant first. */
  function WordBytes(v: u32): seq<u8>
  {
    [ByteOf(v, 0), ByteOf(v, 1), ByteOf(v, 2), ByteOf(v, 3)]
  }

  /** The number whose little-endian byte sequence is `bs`. */
  function LittleEndian(bs: seq<u8>): (v: nat)
  {
    if |bs| == 0 then 0 else bs[0] + 256 * LittleEndian(bs[1..])
  }

  /** Four bytes always make a word. */
  lemma LittleEndianFits(bs: seq<u8>)
    requires |bs| == 4
    ensures LittleEndian(bs) < WordModulus
  {
    assert bs[3..][1..] == [];
    assert bs[2..][1..] == bs[3..];
    assert bs[1..][1..] == bs[2..];
    assert LittleEndian(bs[3..]) < 0x100;
    assert LittleEndian(bs[2..]) < 0x1_0000;
    assert LittleEndian(bs[1..]) < 0x100_0000;
  }

  /** Shifting the value of a byte string by `j` bytes drops its first `j` bytes. */
  lemma {:induction false} ShiftLittleEndian(bs: seq<u8>, j: nat)
    requires j <= |bs|
    ensures ShiftBytes(LittleEndian(bs), j) == LittleEndian(bs[j..])
  {
    if j > 0 {
      ShiftLittleEndian(bs, j - 1);
      var rest := bs[j - 1..];
      assert rest[1..] == bs[j..];
      assert LittleEndian(rest) == rest[0] + 256 * LittleEndian(bs[j..]);
    }
  }

  /** Splitting a word into bytes and reassembling them little-endian gives the word back. */
  lemma WordFromBytes(v: u32)
    ensures LittleEndian(WordBytes(v)) == v
  {
    var s1 := ShiftBytes(v, 1);
    var s2 := ShiftBytes(v, 2);
    var s3 := ShiftBytes(v, 3);
    assert ShiftBytes(v, 0) == v;
    assert s1 == v / 256;
    assert s2 == s1 / 256;
    assert s3 == s2 / 256;
    assert s3 < 256;
    var bs := WordBytes(v);
    assert bs[1..][1..][1..][1..] == [];
    assert LittleEndian(bs[3..]) == s3 by { assert bs[3..][1..] == []; }
    assert bs[2..][1..] == bs[3..];
    assert LittleEndian(bs[2..]) == s2;
    assert bs[1..][1..] == bs[2..];
    assert LittleEndian(bs[1..]) == s1;
  }

  /** Byte `j` of the little-endian value of four bytes is the `j`-th of them. */
  lemma ByteOfLittleEndian(bs: seq<u8>, j: nat)
    requires |bs| == 4 && j < 4
    ensures LittleEndian(bs) < WordModulus && ByteOf(LittleEndian(bs), j) == bs[j]
  {
    LittleEndianFits(bs);
    ShiftLittleEndian(bs, j);
    var rest := bs[j..];
    assert LittleEndian(rest) == rest[0] + 256 * LittleEndian(rest[1..]);
  }

  /** Reassembling four bytes into a word and splitting it again gives the same bytes. */
  lemma BytesFromWord(bs: seq<u8>)
    requires |bs| == 4
    ensures LittleEndian(bs) < WordModulus && WordBytes(LittleEndian(bs)) == bs
  {
    ByteOfLittleEndian(bs, 0);
    ByteOfLittleEndian(bs, 1);
    ByteOfLittleEndian(bs, 2);
    ByteOfLittleEndian(bs, 3);
  }
}
