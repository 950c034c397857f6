/** Base64 as RFC 4648 words it: a bit stream cut into 8-bit bytes on one side, 6-bit values on the other. */
module Base64Bits {

  type Byte = bv8

  /** Bit j of a byte, the most significant bit being number 0. */
  predicate Bit(x: Byte, j: nat)
    requires j < 8
  {
    if j == 0 then x & 0x80 != 0
    else if j == 1 then x & 0x40 != 0
    else if j == 2 then x & 0x20 != 0
    else if j == 3 then x & 0x10 != 0
    else if j == 4 then x & 0x08 != 0
    else if j == 5 then x & 0x04 != 0
    else if j == 6 then x & 0x02 != 0
    else x & 0x01 != 0
  }

  function Pack(b0: bool, b1: bool, b2: bool, b3: bool, b4: bool, b5: bool, b6: bool, b7: bool): Byte {
    (if b0 then 0x80 else 0) | (if b1 then 0x40 else 0) | (if b2 then 0x20 else 0) | (if b3 then 0x10 else 0) |
    (if b4 then 0x08 else 0) | (if b5 then 0x04 else 0) | (if b6 then 0x02 else 0) | (if b7 then 0x01 else 0)
  }

  /** Bit t of the stream made of the low six bits of each value. */
  predicate ValueBit(values: seq<Byte>, t: nat)
    requires t < 6 * |values|
  {
    Bit(values[t / 6], 2 + t % 6)
  }

  /** Bit t of the stream of bytes, continued with zeros. */
  predicate ByteBit(bytes: seq<Byte>, t: nat) {
    t < 8 * |bytes| && Bit(bytes[t / 8], t % 8)
  }

  function DecodedByte(values: seq<Byte>, n: nat): Byte
    requires 8 * n + 8 <= 6 * |values|
  {
    var t := 8 * n;
    Pack(ValueBit(values, t), ValueBit(values, t + 1), ValueBit(values, t + 2), ValueBit(values, t + 3),
         ValueBit(values, t + 4), ValueBit(values, t + 5), ValueBit(values, t + 6), ValueBit(values, t + 7))
  }

  /** All whole bytes in the stream of values. */
  function Decoded(values: seq<Byte>): (bytes: seq<Byte>)
    ensures |bytes| == 3 * |values| / 4
  {
    seq(3 * |values| / 4, n requires 0 <= n < 3 * |values| / 4 => DecodedByte(values, n))
  }

  function EncodedValue(bytes: seq<Byte>, k: nat): Byte {
    Pack(false, false, ByteBit(bytes, 6 * k), ByteBit(bytes, 6 * k + 1), ByteBit(bytes, 6 * k + 2),
         ByteBit(bytes, 6 * k + 3), ByteBit(bytes, 6 * k + 4), ByteBit(bytes, 6 * k + 5))
  }

  /** The six-bit values of a byte string, the last one filled up with zero bits. */
  function Encoded(bytes: seq<Byte>): (values: seq<Byte>)
    ensures |values| == (4 * |bytes| + 2) / 3
  {
    seq((4 * |bytes| + 2) / 3, k requires 0 <= k < (4 * |bytes| + 2) / 3 => EncodedValue(bytes, k))
  }

  // ---------------------------------------------------------------- round trip

  lemma PackBits(x: Byte)
    ensures Pack(Bit(x, 0), Bit(x, 1), Bit(x, 2), Bit(x, 3), Bit(x, 4), Bit(x, 5), Bit(x, 6), Bit(x, 7)) == x
  {}

  lemma BitOfPack(b0: bool, b1: bool, b2: bool, b3: bool, b4: bool, b5: bool, b6: bool, b7: bool)
    ensures var x := Pack(b0, b1, b2, b3, b4, b5, b6, b7);
            Bit(x, 0) == b0 && Bit(x, 1) == b1 && Bit(x, 2) == b2 && Bit(x, 3) == b3 &&
            Bit(x, 4) == b4 && Bit(x, 5) == b5 && Bit(x, 6) == b6 && Bit(x, 7) == b7
  {}

  /** Encoding keeps the bit stream. */
  lemma EncodedBit(bytes: seq<Byte>, t: nat)
    requires t < 6 * |Encoded(bytes)|
    ensures ValueBit(Encoded(bytes), t) == ByteBit(bytes, t)
  {
    hide Bit, Pack, ByteBit;
    var k := t / 6;
    BitOfPack(false, false, ByteBit(bytes, 6 * k), ByteBit(bytes, 6 * k + 1), ByteBit(bytes, 6 * k + 2),
              ByteBit(bytes, 6 * k + 3), ByteBit(bytes, 6 * k + 4), ByteBit(bytes, 6 * k + 5));
    assert t == 6 * k + t % 6;
    var j := t % 6;
    assert j == 0 || j == 1 || j == 2 || j == 3 || j == 4 || j == 5;
  }

  lemma DecodedByteOfEncoded(bytes: seq<Byte>, n: nat)
    requires n < |bytes|
    ensures DecodedByte(Encoded(bytes), n) == bytes[n]
  {
    hide Bit, Pack, Encoded;
    forall j | 0 <= j < 8 ensures ValueBit(Encoded(bytes), 8 * n + j) == Bit(bytes[n], j) {
      EncodedBit(bytes, 8 * n + j);
      assert (8 * n + j) / 8 == n && (8 * n + j) % 8 == j;
    }
    assert ValueBit(Encoded(bytes), 8 * n + 0) == Bit(bytes[n], 0);
    PackBits(bytes[n]);
  }

  /** Decoding the values of a byte string gives the byte string back. */
  lemma DecodedOfEncoded(bytes: seq<Byte>)
    ensures Decoded(Encoded(bytes)) == bytes
  {
    var values := Encoded(bytes);
    forall n | 0 <= n < |bytes| ensures Decoded(values)[n] == bytes[n] {
      DecodedByteOfEncoded(bytes, n);
    }
  }

  // ---------------------------------------------------------------- groups of four values

  lemma ShiftedBit(values: seq<Byte>, group: nat, t: nat)
    requires 4 * group <= |values| && t < 6 * (|values| - 4 * group)
    ensures ValueBit(values[4 * group..], t) == ValueBit(values, 24 * group + t)
  {
    hide Bit;
    assert (24 * group + t) / 6 == 4 * group + t / 6 && (24 * group + t) % 6 == t % 6;
  }

  /** Whole groups in front do not change the bytes that follow. */
  lemma DecodedByteShift(values: seq<Byte>, group: nat, n: nat)
    requires 4 * group <= |values| && 8 * n + 8 <= 6 * (|values| - 4 * group)
    ensures DecodedByte(values, 3 * group + n) == DecodedByte(values[4 * group..], n)
  {
    hide Bit, Pack, ValueBit;
    var rest := values[4 * group..];
    assert 8 * (3 * group + n) == 24 * group + 8 * n;
    forall t | 8 * n <= t < 8 * n + 8 ensures ValueBit(rest, t) == ValueBit(values, 24 * group + t) {
      ShiftedBit(values, group, t);
    }
  }

  function First(hi: Byte, lo: Byte): Byte { ((hi & 0x3F) << 2) | ((lo & 0x30) >> 4) }
  function Second(hi: Byte, lo: Byte): Byte { ((hi & 0x0F) << 4) | ((lo & 0x3C) >> 2) }
  function Third(hi: Byte, lo: Byte): Byte { ((hi & 0x03) << 6) | ((lo & 0x3F) >> 0) }

  lemma FirstByte(values: seq<Byte>)
    requires |values| >= 2
    ensures DecodedByte(values, 0) == First(values[0], values[1])
  {}

  lemma SecondByte(values: seq<Byte>)
    requires |values| >= 3
    ensures DecodedByte(values, 1) == Second(values[1], values[2])
  {}

  lemma ThirdByte(values: seq<Byte>)
    requires |values| >= 4
    ensures DecodedByte(values, 2) == Third(values[2], values[3])
  {}

  /** The three formulas of the slow path are the first three bytes of the bit stream. */
  lemma GroupBytes(values: seq<Byte>)
    ensures |values| >= 2 ==> DecodedByte(values, 0) == First(values[0], values[1])
    ensures |values| >= 3 ==> DecodedByte(values, 1) == Second(values[1], values[2])
    ensures |values| >= 4 ==> DecodedByte(values, 2) == Third(values[2], values[3])
  {
    hide DecodedByte, First, Second, Third;
    if |values| >= 2 { FirstByte(values); }
    if |values| >= 3 { SecondByte(values); }
    if |values| >= 4 { ThirdByte(values); }
  }

  /** In numbers: the 24 bits of four values, taken eight at a time. Nothing overflows for values below 64. */
  function ByteOf(values: seq<Byte>, n: nat): Byte
    requires n < 3 * |values| / 4
  {
    var g := n / 3 * 4;
    if n % 3 == 0 then values[g] * 4 + values[g + 1] / 16
    else if n % 3 == 1 then values[g + 1] % 16 * 16 + values[g + 2] / 4
    else values[g + 2] % 4 * 64 + values[g + 3]
  }

  lemma GroupNumbers(v0: Byte, v1: Byte, v2: Byte, v3: Byte)
    requires v0 < 64 && v1 < 64 && v2 < 64 && v3 < 64
    ensures First(v0, v1) == v0 * 4 + v1 / 16
    ensures Second(v1, v2) == v1 % 16 * 16 + v2 / 4
    ensures Third(v2, v3) == v2 % 4 * 64 + v3
  {}

  /** Each byte of the stream, from the values by multiplication and division. */
  lemma DecodedByteExact(values: seq<Byte>, n: nat)
    requires n < 3 * |values| / 4 && forall k :: 0 <= k < |values| ==> values[k] < 64
    ensures DecodedByte(values, n) == ByteOf(values, n)
  {
    hide DecodedByte, First, Second, Third;
    var q := n / 3;
    var rest := values[4 * q..];
    DecodedByteShift(values, q, n % 3);
    GroupBytes(rest);
    GroupNumbers(rest[0], rest[1], if |rest| > 2 then rest[2] else 0, if |rest| > 3 then rest[3] else 0);
  }

  // ---------------------------------------------------------------- the packed path

  function ReadUint32BE(p0: Byte, p1: Byte, p2: Byte, p3: Byte): bv32 {
    (p0 as bv32 << 24) | (p1 as bv32 << 16) | (p2 as bv32 << 8) | p3 as bv32
  }

  /** One mask finds any illegal value among four. */
  lemma MaskFindsIllegal(p0: Byte, p1: Byte, p2: Byte, p3: Byte)
    ensures ReadUint32BE(p0, p1, p2, p3) & 0x8080_8080 != 0 <==>
            p0 >= 128 || p1 >= 128 || p2 >= 128 || p3 >= 128
  {}

  function Packed0(v: bv32): Byte { (((v >> 22) & 0xFC) | ((v >> 20) & 0x03)) as Byte }
  function Packed1(v: bv32): Byte { (((v >> 12) & 0xF0) | ((v >> 10) & 0x0F)) as Byte }
  function Packed2(v: bv32): Byte { (((v >> 2) & 0xC0) | ((v >> 0) & 0x3F)) as Byte }

  /** Bit for bit, the 32-bit extraction computes the three group formulas. */
  lemma PackedIsGroup(p0: Byte, p1: Byte, p2: Byte, p3: Byte)
    requires p0 < 64 && p1 < 64 && p2 < 64 && p3 < 64
    ensures var v := ReadUint32BE(p0, p1, p2, p3);
            Packed0(v) == First(p0, p1) && Packed1(v) == Second(p1, p2) && Packed2(v) == Third(p2, p3)
  {}
}
