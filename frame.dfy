/**
 * The 14-byte frame streamed on the UART: header 0xA0, then the X, Y and Z
 * values as 32-bit two's-complement integers, least significant byte first,
 * then footer 0xC0.
 */
module Frame {
  import opened Types

  const Header: Byte := 0xA0
  const Footer: Byte := 0xC0
  const FrameLength: nat := 14

  /** First frame index of axis `axis` (0 = X, 1 = Y, 2 = Z). */
  function Offset(axis: nat): (i: nat)
    requires axis < 3
    ensures 1 <= i && i + 4 <= FrameLength - 1
  {
    1 + 4 * axis
  }

  /** The three values one frame carries. */
  datatype Axes = Axes(x: Int32, y: Int32, z: Int32)
  {
    function Get(axis: nat): Int32
      requires axis < 3
    {
      if axis == 0 then x else if axis == 1 then y else z
    }
  }

  /** 2 to the power 8k. */
  function Weight(k: nat): (w: nat)
    requires k < 4
    ensures w > 0
  {
    if k == 0 then 1 else if k == 1 then 0x100 else if k == 2 then 0x1_0000 else 0x100_0000
  }

  /**
   * `(uint8_t)(v >> 8k)` (for k = 0 written `v & 0xFF`): the signed shift is
   * arithmetic, that is floor division, and the cast keeps the low 8 bits.
   */
  function ByteOf(v: Int32, k: nat): Byte
    requires k < 4
  {
    (v / Weight(k)) % 0x100
  }

  /**
   * `ByteOf(v, k)` is byte `k` of the 32-bit two's-complement pattern of `v`:
   * a negative value and its pattern differ by 2^32, a multiple of 256 times
   * every weight.
   */
  lemma ByteOfPattern(v: Int32, k: nat)
    requires k < 4
    ensures ByteOf(v, k) == ((v % 0x1_0000_0000) / Weight(k)) % 0x100
  {
    if v < 0 {
      var w := Weight(k);
      var u := v + 0x1_0000_0000;
      assert v % 0x1_0000_0000 == u;
      var c := 0x1_0000_0000 / (0x100 * w);
      assert 0x1_0000_0000 == 0x100 * w * c;
      assert u / w == v / w + 0x100 * c;
    }
  }

  /** The four bytes of `v`, least significant first. */
  function Pack32(v: Int32): (b: seq<Byte>)
    ensures |b| == 4
  {
    [ByteOf(v, 0), ByteOf(v, 1), ByteOf(v, 2), ByteOf(v, 3)]
  }

  /** Reading four bytes back as a little-endian two's-complement `int32`. */
  function ReadLE32(b: seq<Byte>): (v: Int32)
    requires |b| == 4
    ensures v >= 0 <==> b[3] < 0x80
  {
    var u: int := b[0] as int + 0x100 * b[1] as int + 0x1_0000 * b[2] as int + 0x100_0000 * b[3] as int;
    if u < 0x8000_0000 then u else u - 0x1_0000_0000
  }

  /** Round trip: the packed bytes read back as the packed value. */
  lemma ReadPack32(v: Int32)
    ensures ReadLE32(Pack32(v)) == v
  {
    var v1 := v / 0x100;
    var v2 := v1 / 0x100;
    var v3 := v2 / 0x100;
    assert v / 0x1_0000 == v2;
    assert v / 0x100_0000 == v3;
    assert -0x80 <= v3 < 0x80;
    assert v == v % 0x100 + 0x100 * (v1 % 0x100) + 0x1_0000 * (v2 % 0x100) + 0x100_0000 * v3;
  }

  /** The other direction: every 4-byte group is the packing of what it reads as. */
  lemma PackRead32(b: seq<Byte>)
    requires |b| == 4
    ensures Pack32(ReadLE32(b)) == b
  {
    var v := ReadLE32(b);
    var t3: int := b[3] as int - (if b[3] < 0x80 then 0 else 0x100);
    var t2: int := b[2] as int + 0x100 * t3;
    var t1: int := b[1] as int + 0x100 * t2;
    assert v == b[0] as int + 0x100 * t1;
    assert v / 0x100 == t1 && v % 0x100 == b[0];
    assert v / 0x1_0000 == t2 && t1 % 0x100 == b[1];
    assert v / 0x100_0000 == t3 && t2 % 0x100 == b[2];
    assert t3 % 0x100 == b[3];
  }

  /** The frame for three axis values. */
  function Encode(a: Axes): (f: seq<Byte>)
    ensures |f| == FrameLength
    ensures f[0] == Header && f[FrameLength - 1] == Footer
  {
    [Header] + Pack32(a.x) + Pack32(a.y) + Pack32(a.z) + [Footer]
  }

  /** Where each byte of an axis lands in the frame. */
  lemma EncodeLayout(a: Axes, axis: nat, k: nat)
    requires axis < 3 && k < 4
    ensures Encode(a)[Offset(axis) + k] == ByteOf(a.Get(axis), k)
  {
  }

  /** The host's side of the link: checks the framing and reads the three values. */
  function Decode(f: seq<Byte>): Option<Axes>
  {
    if |f| != FrameLength || f[0] != Header || f[FrameLength - 1] != Footer then None
    else Some(Axes(ReadLE32(f[1..5]), ReadLE32(f[5..9]), ReadLE32(f[9..13])))
  }

  lemma DecodeEncode(a: Axes)
    ensures Decode(Encode(a)) == Some(a)
  {
    var f := Encode(a);
    assert f[1..5] == Pack32(a.x);
    assert f[5..9] == Pack32(a.y);
    assert f[9..13] == Pack32(a.z);
    ReadPack32(a.x);
    ReadPack32(a.y);
    ReadPack32(a.z);
  }

  /** A frame the host accepts is exactly the encoding of what it reads. */
  lemma EncodeDecode(f: seq<Byte>)
    ensures Decode(f).Some? <==> |f| == FrameLength && f[0] == Header && f[FrameLength - 1] == Footer
    ensures Decode(f).Some? ==> Encode(Decode(f).value) == f
  {
    if Decode(f).Some? {
      PackRead32(f[1..5]);
      PackRead32(f[5..9]);
      PackRead32(f[9..13]);
      assert f == [f[0]] + f[1..5] + f[5..9] + f[9..13] + [f[13]];
    }
  }
}
