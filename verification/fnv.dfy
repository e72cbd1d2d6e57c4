/**
 * FNV-1 hashing of a byte sequence, as used by the hash map and hash set to
 * compute the marker of a key.  The accumulator is a `size_t`, which this
 * model takes to be 64 bits wide: it is kept as an integer below 2^64, every
 * multiplication is reduced modulo 2^64, and the XOR with a byte touches
 * only the low eight bits.
 */
module Fnv {

  /** A byte of a key's object representation. */
  type Byte = b: int | 0 <= b < 256
  type Bytes = seq<Byte>

  /** An unsigned machine word of the width of `size_t`, as an integer. */
  type SizeT = x: int | 0 <= x < 0x1_0000_0000_0000_0000

  /** The number of `size_t` values; arithmetic on `size_t` wraps modulo this. */
  const WordSpan: nat := 0x1_0000_0000_0000_0000

  /** The offset basis and prime of the 32-bit FNV-1 variant, widened to `size_t`. */
  const Basis: SizeT := 0x811c9dc5
  const Prime: SizeT := 0x01000193

  /** 1 when the lowest bits of `a` and `c` differ, else 0. */
  function BitDiffers(a: nat, c: nat): nat {
    if a % 2 == c % 2 then 0 else 1
  }

  /** The bitwise exclusive or of two bytes, bit by bit from the lowest. */
  function Xor8(a: Byte, c: Byte): Byte {
      BitDiffers(a, c)
    + 2 * BitDiffers(a / 2, c / 2)
    + 4 * BitDiffers(a / 4, c / 4)
    + 8 * BitDiffers(a / 8, c / 8)
    + 16 * BitDiffers(a / 16, c / 16)
    + 32 * BitDiffers(a / 32, c / 32)
    + 64 * BitDiffers(a / 64, c / 64)
    + 128 * BitDiffers(a / 128, c / 128)
  }

  /** `x ^= b` on a `size_t`: the byte is XORed into the low eight bits. */
  function XorByte(x: SizeT, b: Byte): (y: SizeT)
    ensures y / 256 == x / 256
  {
    var low := Xor8(x % 256, b);
    ReplaceLowByte(x, low);
    256 * (x / 256) + low
  }

  /** Putting another low byte under the upper bits of a `size_t` gives a `size_t` with those upper bits. */
  lemma ReplaceLowByte(x: SizeT, low: int)
    requires 0 <= low < 256
    ensures 0 <= 256 * (x / 256) + low < WordSpan
    ensures (256 * (x / 256) + low) / 256 == x / 256
  {
  }

  /** One round of FNV-1: multiply by the prime (wrapping), then XOR in the byte. */
  function Step(acc: SizeT, b: Byte): SizeT {
    XorByte((acc * Prime) % WordSpan, b)
  }

  /**
   * The FNV-1 hash of a byte sequence: a left fold of `Step` over the bytes,
   * starting from the offset basis.
   */
  function Fnv1(bytes: Bytes): SizeT
    decreases |bytes|, 1
  {
    if |bytes| == 0 then Basis else LastRound(bytes)
  }

  /** The round that folds in the last byte of a non-empty sequence. */
  function LastRound(bytes: Bytes): SizeT
    requires |bytes| > 0
    decreases |bytes|, 0
  {
    Step(Fnv1(bytes[..|bytes| - 1]), bytes[|bytes| - 1])
  }

  /** The marker the tables store for a key or value: its FNV-1 hash. */
  function Hash(bytes: Bytes): SizeT {
    Fnv1(bytes)
  }

  /** Unfolds `Fnv1` on a non-empty sequence through `LastRound` (a proof helper). */
  lemma Fnv1Last(bytes: Bytes)
    requires |bytes| > 0
    ensures Fnv1(bytes) == Step(Fnv1(bytes[..|bytes| - 1]), bytes[|bytes| - 1])
  {
    assert Fnv1(bytes) == LastRound(bytes);
  }

  /** Appending a byte applies one more round to the hash of the prefix. */
  lemma Fnv1Snoc(bytes: Bytes, b: Byte)
    ensures Fnv1(bytes + [b]) == Step(Fnv1(bytes), b)
  {
    Fnv1Last(bytes + [b]);
    assert (bytes + [b])[..|bytes|] == bytes;
  }

  /** `XorByte` on a word given as its upper bits `q` and its low byte `lo`. */
  lemma XorByteAt(x: SizeT, q: nat, lo: Byte, b: Byte)
    requires x == 256 * q + lo
    ensures XorByte(x, b) == 256 * q + Xor8(lo, b)
  {
    assert x / 256 == q && x % 256 == lo;
  }

  /** The byte XORs the worked examples below rely on, one per lemma. */
  lemma Xor8OneToLowByte()
    ensures Xor8(0x1f, 1) == 0x1e
  {
  }

  lemma Xor8OneToBasisByte()
    ensures Xor8(0xc5, 1) == 0xc4
  {
  }

  lemma Xor8ZeroToLowByte()
    ensures Xor8(0x1f, 0) == 0x1f
  {
  }

  lemma Xor8ZeroToSecondByte()
    ensures Xor8(0xcd, 0) == 0xcd
  {
  }

  /** The first round multiplies the offset basis by the prime; the product fits in 64 bits. */
  lemma OneByte(b: Byte)
    ensures Fnv1([b]) == XorByte(0x811d69050c5d1f, b)
  {
    Fnv1Last([b]);
    assert [b][..0] == [];
    assert Fnv1([]) == Basis;
    assert (Basis * Prime) % WordSpan == 0x811d69050c5d1f by {
      assert Basis == 0x811c9dc5 && Prime == 0x01000193 && WordSpan == 0x1_0000_0000_0000_0000;
      assert 0x811c9dc5 * 0x01000193 == 0x811d69050c5d1f;
    }
  }

  /**
   * The order of a round is FNV-1, not FNV-1a: on the single byte 1 the
   * result differs from XOR-then-multiply.
   */
  lemma MultiplyBeforeXor()
    ensures Fnv1([1]) == 0x811d69050c5d1e
    ensures Fnv1([1]) != (XorByte(Basis, 1) * Prime) % WordSpan
  {
    OneByte(1);
    Xor8OneToLowByte();
    Xor8OneToBasisByte();
    XorByteAt(0x811d69050c5d1f, 0x811d69050c5d, 0x1f, 1);
    XorByteAt(0x811c9dc5, 0x811c9d, 0xc5, 1);
    assert Prime == 0x01000193;
    ReduceWord(0x811c9dc4 * 0x01000193, 0, 0x811d69040c5b8c);
  }

  /** One zero byte: a single multiplication, whose product exceeds 32 bits. */
  lemma OneZeroByte()
    ensures Hash([0]) == 0x811c9dc5 * 0x01000193 == 0x811d69050c5d1f
  {
    OneByte(0);
    Xor8ZeroToLowByte();
    XorByteAt(0x811d69050c5d1f, 0x811d69050c5d, 0x1f, 0);
  }

  /** Two zero bytes: the second product is reduced modulo 2^64. */
  lemma TwoZeroBytes()
    ensures Hash([0, 0]) == 0x344658b0117697cd
  {
    OneZeroByte();
    Fnv1Last([0, 0]);
    assert [0, 0][..1] == [0];
    assert Prime == 0x01000193;
    ReduceWord(0x811d69050c5d1f * 0x01000193, 0x811e, 0x344658b0117697cd);
    Xor8ZeroToSecondByte();
    XorByteAt(0x344658b0117697cd, 0x344658b0117697, 0xcd, 0);
  }

  /** Reduction modulo 2^64 of a number given as quotient and remainder. */
  lemma ReduceWord(x: int, q: int, r: int)
    requires x == q * WordSpan + r && 0 <= r < WordSpan
    ensures x % WordSpan == r
  {
  }

  /**
   * The accumulator is 64 bits wide: the hash of one zero byte does not fit
   * in 32 bits, and the second round already wraps modulo 2^64.
   */
  lemma WrapsAtSixtyFourBits()
    ensures Hash([0]) >= 0x1_0000_0000
    ensures Hash([0, 0]) != 0x811c9dc5 * 0x01000193 * 0x01000193
    ensures Hash([0, 0]) == (0x811c9dc5 * 0x01000193 * 0x01000193) % WordSpan
  {
    OneZeroByte();
    TwoZeroBytes();
    ReduceWord(0x811c9dc5 * 0x01000193 * 0x01000193, 0x811e, 0x344658b0117697cd);
  }

  /** The byte loop of `__fnv1hash`, computing the hash in a local accumulator. */
  method Fnv1Hash(bytes: Bytes) returns (hash: SizeT)
    ensures hash == Hash(bytes)
  {
    hash := Basis;
    for i := 0 to |bytes|
      invariant hash == Fnv1(bytes[..i])
    {
      Fnv1Last(bytes[..i + 1]);
      assert bytes[..i + 1][..i] == bytes[..i];
      hash := (hash * Prime) % WordSpan;
      hash := XorByte(hash, bytes[i]);
    }
    assert bytes[..|bytes|] == bytes;
  }
}
