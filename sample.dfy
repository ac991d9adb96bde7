/**
 * Decoding one accelerometer axis from the 6-byte burst read of the output
 * registers OUT_X_L .. OUT_Z_H: two bytes joined low byte first, read as a
 * two's-complement 16-bit value, then shifted right by 4 to the 12-bit
 * sample of the sensor's high-resolution mode.
 */
module Sample {
  import opened Types

  /** The 16-bit pattern `lo | (hi << 8)`. */
  function Join(lo: Byte, hi: Byte): (u: nat)
    ensures u < 0x1_0000
    ensures u % 0x100 == lo && u / 0x100 == hi
  {
    lo + 0x100 * hi
  }

  /** The same join written with the C bit operators, on bit-vectors. */
  function JoinBits(lo: bv8, hi: bv8): bv16
  {
    (lo as bv16) | ((hi as bv16) << 8)
  }

  lemma JoinBitsBytes(lo: bv8, hi: bv8)
    ensures ((lo as bv16) | ((hi as bv16) << 8)) as int % 0x100 == lo as int
    ensures ((lo as bv16) | ((hi as bv16) << 8)) as int / 0x100 == hi as int
  {
  }

  lemma JoinBitsIsJoin(lo: bv8, hi: bv8)
    ensures JoinBits(lo, hi) as int == Join(lo as int, hi as int)
  {
    JoinBitsBytes(lo, hi);
    var u: int := JoinBits(lo, hi) as int;
    assert u == 0x100 * (u / 0x100) + u % 0x100;
  }

  /** The cast `(int16)` of a 16-bit pattern: two's complement. */
  function AsInt16(u: nat): (v: Int16)
    requires u < 0x1_0000
    ensures v % 0x1_0000 == u
    ensures v < 0 <==> u >= 0x8000
  {
    if u < 0x8000 then u else u - 0x1_0000
  }

  /**
   * `v >> 4` on a signed operand: the compiler shifts arithmetically, which
   * is floor division by 16 (Dafny's `/` by a positive divisor floors).
   */
  function ShiftRight4(v: int): (s: int)
    ensures 16 * s <= v < 16 * s + 16
  {
    v / 16
  }

  /** One axis: `(int16)(lo | (hi << 8)) >> 4`. */
  function DecodeAxis(lo: Byte, hi: Byte): (s: int)
    ensures -2048 <= s <= 2047
    ensures 16 * s <= AsInt16(Join(lo, hi)) < 16 * s + 16
  {
    ShiftRight4(AsInt16(Join(lo, hi)))
  }

  /** Axis `axis` (0 = X, 1 = Y, 2 = Z) of a burst read. */
  function AxisOf(data: seq<Byte>, axis: nat): (s: int)
    requires |data| == 6 && axis < 3
    ensures -2048 <= s <= 2047
  {
    DecodeAxis(data[2 * axis], data[2 * axis + 1])
  }

  /**
   * The two register bytes a sensor holding the 12-bit sample `s` reports,
   * when the four bits below the sample read `nibble`.
   */
  function EncodeAxis(s: int, nibble: nat): (b: (Byte, Byte))
    requires -2048 <= s <= 2047 && nibble < 16
  {
    var u := (16 * s + nibble) % 0x1_0000;
    (u % 0x100, u / 0x100)
  }

  /** The 16-bit pattern a byte pair writes is the two's complement of its value. */
  lemma JoinAsInt16(v: Int16)
    ensures var u := v % 0x1_0000; AsInt16(Join(u % 0x100, u / 0x100)) == v
  {
  }

  /** Decoding the bytes of a sample gives the sample back, whatever the low nibble. */
  lemma DecodeEncodeAxis(s: int, nibble: nat)
    requires -2048 <= s <= 2047 && nibble < 16
    ensures DecodeAxis(EncodeAxis(s, nibble).0, EncodeAxis(s, nibble).1) == s
  {
  }

  /**
   * Both directions: a byte pair decodes to `s` exactly when it is the
   * encoding of `s` with the low nibble that the decoder drops.
   */
  lemma DecodeAxisIff(lo: Byte, hi: Byte, s: int)
    requires -2048 <= s <= 2047
    ensures DecodeAxis(lo, hi) == s <==> (lo, hi) == EncodeAxis(s, lo % 16)
  {
    var v: int := AsInt16(Join(lo, hi));
    assert v % 16 == lo % 16;
    if DecodeAxis(lo, hi) == s {
      assert v == 16 * s + lo % 16;
      assert v % 0x1_0000 == Join(lo, hi);
    } else if (lo, hi) == EncodeAxis(s, lo % 16) {
      DecodeEncodeAxis(s, lo % 16);
    }
  }
}
