/**
 Byte strings and the fixed-width little-endian integers used by Molecule
 (Nervos CKB RFC 0008) and by the Type ID preimage.
 */
module LittleEndian {

  type Byte = x: int | 0 <= x < 256
  type Bytes = seq<Byte>

  const U32_LIMIT: int := 0x1_0000_0000
  const U64_LIMIT: int := 0x1_0000_0000_0000_0000

  /** The number of values that fit in `width` bytes. */
  function Capacity(width: nat): (limit: int)
    ensures limit >= 1
  {
    if width == 0 then 1 else 256 * Capacity(width - 1)
  }

  function Encode(value: nat, width: nat): (bytes: Bytes)
    ensures |bytes| == width
  {
    if width == 0 then [] else [value % 256] + Encode(value / 256, width - 1)
  }

  function Decode(bytes: Bytes): (value: nat)
    ensures value < Capacity(|bytes|)
  {
    if bytes == [] then 0 else bytes[0] + 256 * Decode(bytes[1..])
  }

  lemma Capacities()
    ensures Capacity(1) == 256 && Capacity(4) == U32_LIMIT && Capacity(8) == U64_LIMIT
  {
    assert Capacity(2) == 0x1_0000;
    assert Capacity(3) == 0x100_0000;
    assert Capacity(5) == 0x100_0000_0000;
    assert Capacity(6) == 0x1_0000_0000_0000;
    assert Capacity(7) == 0x100_0000_0000_0000;
  }

  lemma {:induction false} DecodeEncode(value: nat, width: nat)
    requires value < Capacity(width)
    ensures Decode(Encode(value, width)) == value
  {
    if width != 0 {
      DecodeEncode(value / 256, width - 1);
      assert Encode(value, width)[1..] == Encode(value / 256, width - 1);
    }
  }

  lemma {:induction false} EncodeDecode(bytes: Bytes)
    ensures Encode(Decode(bytes), |bytes|) == bytes
  {
    if bytes != [] {
      EncodeDecode(bytes[1..]);
      assert Decode(bytes) % 256 == bytes[0];
      assert Decode(bytes) / 256 == Decode(bytes[1..]);
      assert bytes == [bytes[0]] + bytes[1..];
    }
  }
}
