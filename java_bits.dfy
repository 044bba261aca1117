/**
 * Java's fixed-width integers as bit-vectors: the numbers they denote, the implicit
 * sign-extending widenings Java applies when a narrow value meets a wider one, the
 * unsigned views obtained by masking, and the little-endian byte layout in which the
 * stores keep multi-byte values.
 */
module JavaBits {

  /** The number a Java `byte` with these bits denotes (two's complement). */
  function SignedByte(b: bv8): int {
    if b < 0x80 then b as int else b as int - 0x100
  }

  /** The number a Java `short` with these bits denotes. */
  function SignedShort(s: bv16): int {
    if s < 0x8000 then s as int else s as int - 0x1_0000
  }

  /** The number a Java `int` with these bits denotes. */
  function SignedInt(i: bv32): int {
    if i < 0x8000_0000 then i as int else i as int - 0x1_0000_0000
  }

  /** Java's widening of a `byte` to `int`: the low byte keeps the bits, the 24 new bits repeat the sign bit. */
  function ByteToInt(b: bv8): (r: bv32)
    ensures r & 0xFF == b as bv32
    ensures r >> 8 == if b & 0x80 != 0 then 0xFF_FFFF else 0
  {
    if b & 0x80 != 0 then (b as bv32) | 0xFFFF_FF00 else b as bv32
  }

  /** Java's widening of a `short` to `int`: the low half keeps the bits, the high half repeats the sign bit. */
  function ShortToInt(s: bv16): (r: bv32)
    ensures r & 0xFFFF == s as bv32
    ensures r >> 16 == if s & 0x8000 != 0 then 0xFFFF else 0
  {
    if s & 0x8000 != 0 then (s as bv32) | 0xFFFF_0000 else s as bv32
  }

  /** Java's widening of an `int` to `long`: the low half keeps the bits, the high half repeats the sign bit. */
  function IntToLong(i: bv32): (r: bv64)
    ensures r & 0xFFFF_FFFF == i as bv64
    ensures r >> 32 == if i & 0x8000_0000 != 0 then 0xFFFF_FFFF else 0
  {
    if i & 0x8000_0000 != 0 then (i as bv64) | 0xFFFF_FFFF_0000_0000 else i as bv64
  }

  /** `b & 0xFF` on a Java byte: its bits read as an unsigned number, the sign extension masked away. */
  function UnsignedByte(b: bv8): (r: int)
    ensures r == b as int && 0 <= r < 0x100
    ensures r == SignedByte(b) % 0x100
  {
    MaskedValue8(b);
    Residue8(b);
    (ByteToInt(b) & 0xFF) as int
  }

  /** `s & 0xFFFF` on a Java short: its bits read as an unsigned number. */
  function UnsignedShort(s: bv16): (r: int)
    ensures r == s as int && 0 <= r < 0x1_0000
    ensures r == SignedShort(s) % 0x1_0000
  {
    MaskedValue16(s);
    Residue16(s);
    (ShortToInt(s) & 0xFFFF) as int
  }

  /** `i & 0xFFFFFFFFL` on a Java int: widened to long, then masked to its unsigned value. */
  function UnsignedInt(i: bv32): (r: int)
    ensures r == i as int && 0 <= r < 0x1_0000_0000
    ensures r == SignedInt(i) % 0x1_0000_0000
  {
    MaskedValue32(i);
    Residue32(i);
    (IntToLong(i) & 0xFFFF_FFFF) as int
  }

  lemma MaskedWidening8(b: bv8)
    ensures ByteToInt(b) & 0xFF == b as bv32
  {
  }

  lemma MaskedWidening16(s: bv16)
    ensures ShortToInt(s) & 0xFFFF == s as bv32
  {
  }

  lemma MaskedWidening32(i: bv32)
    ensures IntToLong(i) & 0xFFFF_FFFF == i as bv64
  {
  }

  lemma MaskedValue8(b: bv8)
    ensures (ByteToInt(b) & 0xFF) as int == b as int
  {
    MaskedWidening8(b);
    ZeroExtension8(b);
  }

  lemma Residue8(b: bv8)
    ensures b as int == SignedByte(b) % 0x100
  {
  }

  lemma ZeroExtension8(b: bv8)
    ensures (b as bv32) as int == b as int
  {
  }

  lemma MaskedValue16(s: bv16)
    ensures (ShortToInt(s) & 0xFFFF) as int == s as int
  {
    MaskedWidening16(s);
    ZeroExtension16(s);
  }

  lemma Residue16(s: bv16)
    ensures s as int == SignedShort(s) % 0x1_0000
  {
  }

  lemma ZeroExtension16(s: bv16)
    ensures (s as bv32) as int == s as int
  {
  }

  lemma MaskedValue32(i: bv32)
    ensures (IntToLong(i) & 0xFFFF_FFFF) as int == i as int
  {
    MaskedWidening32(i);
    ZeroExtension32(i);
  }

  lemma Residue32(i: bv32)
    ensures i as int == SignedInt(i) % 0x1_0000_0000
  {
  }

  lemma ZeroExtension32(i: bv32)
    ensures (i as bv64) as int == i as int
  {
  }

  /** Java's `long` addition, which wraps around modulo 2^64; zero is its identity. */
  function AddLong(a: bv64, b: bv64): (r: bv64)
    ensures b == 0 ==> r == a
    ensures a == 0 ==> r == b
  {
    a + b
  }

  /** The addition wraps: `Long.MAX_VALUE + 1` is `Long.MIN_VALUE`, and `-1 + 1` is 0. */
  lemma AddLongWrapsAround()
    ensures AddLong(0x7FFF_FFFF_FFFF_FFFF, 1) == 0x8000_0000_0000_0000
    ensures AddLong(0xFFFF_FFFF_FFFF_FFFF, 1) == 0
  {
  }

  /** Java's `1 << 31`: an `int` with only bit 31 set, the not-ready marker of a 32-bit field. */
  const IntBit31: bv32 := 0x8000_0000

  /**
   * `(long) (1 << 31)`: what `1 << 31` becomes when Java combines it with a `long`.
   * The int is negative, so widening copies its sign into bits 32..63.
   */
  const LongOfIntBit31: bv64 := IntToLong(IntBit31)

  lemma LongOfIntBit31Bits()
    ensures LongOfIntBit31 == 0xFFFF_FFFF_8000_0000
    ensures LongOfIntBit31 >> 31 == 0x1_FFFF_FFFF && LongOfIntBit31 & 0x7FFF_FFFF == 0
  {
  }

  // Little-endian layout: byte k of a stored value holds bits 8k..8k+7.

  function DecodeShort(b: seq<bv8>): bv16
    requires |b| == 2
  {
    (b[0] as bv16) | (b[1] as bv16 << 8)
  }

  function EncodeShort(v: bv16): (b: seq<bv8>)
    ensures |b| == 2 && DecodeShort(b) == v
  {
    [(v & 0xFF) as bv8, (v >> 8) as bv8]
  }

  function DecodeInt(b: seq<bv8>): bv32
    requires |b| == 4
  {
    (b[0] as bv32) | (b[1] as bv32 << 8) | (b[2] as bv32 << 16) | (b[3] as bv32 << 24)
  }

  function EncodeInt(v: bv32): (b: seq<bv8>)
    ensures |b| == 4 && DecodeInt(b) == v
  {
    [(v & 0xFF) as bv8, ((v >> 8) & 0xFF) as bv8, ((v >> 16) & 0xFF) as bv8, (v >> 24) as bv8]
  }

  function DecodeLong(b: seq<bv8>): bv64
    requires |b| == 8
  {
    (b[0] as bv64) | (b[1] as bv64 << 8) | (b[2] as bv64 << 16) | (b[3] as bv64 << 24)
    | (b[4] as bv64 << 32) | (b[5] as bv64 << 40) | (b[6] as bv64 << 48) | (b[7] as bv64 << 56)
  }

  function EncodeLong(v: bv64): (b: seq<bv8>)
    ensures |b| == 8 && DecodeLong(b) == v
  {
    [(v & 0xFF) as bv8, ((v >> 8) & 0xFF) as bv8, ((v >> 16) & 0xFF) as bv8, ((v >> 24) & 0xFF) as bv8,
     ((v >> 32) & 0xFF) as bv8, ((v >> 40) & 0xFF) as bv8, ((v >> 48) & 0xFF) as bv8, (v >> 56) as bv8]
  }

  /** The layout loses nothing: eight stored bytes are exactly the encoding of the long they decode to. */
  lemma EncodeDecodeLong(b: seq<bv8>)
    requires |b| == 8
    ensures EncodeLong(DecodeLong(b)) == b
  {
  }

  lemma EncodeDecodeInt(b: seq<bv8>)
    requires |b| == 4
    ensures EncodeInt(DecodeInt(b)) == b
  {
  }

  lemma EncodeDecodeShort(b: seq<bv8>)
    requires |b| == 2
    ensures EncodeShort(DecodeShort(b)) == b
  {
  }
}
