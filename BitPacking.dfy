/**
 * Conversions between bytes and 24-, 32- and 64-bit unsigned words, in
 * big-endian and little-endian order (CryptSharp.Internal.BitPacking).
 *
 * A .NET `byte` is a `bv8`, a `uint` a `bv32` and a `ulong` a `bv64`.  The
 * decoders are pure functions of the bytes; the encoders write into a
 * caller's array in place, so they are methods that modify it.  A cast
 * `(byte)(value >> s)` keeps the low eight bits, written here as
 * `((value >> s) & 0xFF) as byte`.  No offset is validated by the source:
 * the caller guarantees that the bytes at the offset exist.
 *
 * The decoders carry no arithmetic postconditions of their own, so that the
 * solver does not meet word arithmetic wherever they are used; what they
 * mean is stated by the lemmas after them.
 */
module BitPacking {
  import WordValue

  type byte = bv8

  // ---------------------------------------------------------------------
  // Decoders
  // ---------------------------------------------------------------------

  /** The big-endian 32-bit word at `offset`. */
  function UInt32FromBEBytes(bytes: seq<byte>, offset: nat): (w: bv32)
    requires offset + 4 <= |bytes|
  {
    ((bytes[offset] as bv32) << 24) | ((bytes[offset + 1] as bv32) << 16) |
    ((bytes[offset + 2] as bv32) << 8) | (bytes[offset + 3] as bv32)
  }

  /** The big-endian 64-bit word at `offset`. */
  function UInt64FromBEBytes(bytes: seq<byte>, offset: nat): (w: bv64)
    requires offset + 8 <= |bytes|
  {
    ((bytes[offset] as bv64) << 56) | ((bytes[offset + 1] as bv64) << 48) |
    ((bytes[offset + 2] as bv64) << 40) | ((bytes[offset + 3] as bv64) << 32) |
    ((bytes[offset + 4] as bv64) << 24) | ((bytes[offset + 5] as bv64) << 16) |
    ((bytes[offset + 6] as bv64) << 8) | (bytes[offset + 7] as bv64)
  }

  /** The little-endian 24-bit word at `offset`; it always lies below 2^24. */
  function UInt24FromLEBytes(bytes: seq<byte>, offset: nat): (r: bv32)
    requires offset + 3 <= |bytes|
    ensures r < 0x100_0000
  {
    ((bytes[offset + 2] as bv32) << 16) | ((bytes[offset + 1] as bv32) << 8) | (bytes[offset] as bv32)
  }

  /** The little-endian 32-bit word at `offset`: its top byte over the 24-bit word below it. */
  function UInt32FromLEBytes(bytes: seq<byte>, offset: nat): (w: bv32)
    requires offset + 4 <= |bytes|
  {
    ((bytes[offset + 3] as bv32) << 24) | UInt24FromLEBytes(bytes, offset)
  }

  // ---------------------------------------------------------------------
  // What the decoders mean
  // ---------------------------------------------------------------------

  /** Big-endian: byte `offset + k` weighs 256^(3-k). */
  lemma UInt32FromBEBytesValue(bytes: seq<byte>, offset: nat)
    requires offset + 4 <= |bytes|
    ensures UInt32FromBEBytes(bytes, offset)
         == (bytes[offset] as bv32) * 0x100_0000 + (bytes[offset + 1] as bv32) * 0x1_0000
            + (bytes[offset + 2] as bv32) * 0x100 + bytes[offset + 3] as bv32
  {
  }

  /** Little-endian: byte `offset + k` weighs 256^k. */
  lemma UInt32FromLEBytesValue(bytes: seq<byte>, offset: nat)
    requires offset + 4 <= |bytes|
    ensures UInt32FromLEBytes(bytes, offset)
         == bytes[offset] as bv32 + (bytes[offset + 1] as bv32) * 0x100
            + (bytes[offset + 2] as bv32) * 0x1_0000 + (bytes[offset + 3] as bv32) * 0x100_0000
  {
  }

  /** The 24-bit word is the sum of its three bytes, byte k weighing 256^k. */
  lemma UInt24FromLEBytesValue(bytes: seq<byte>, offset: nat)
    requires offset + 3 <= |bytes|
    ensures UInt24FromLEBytes(bytes, offset)
         == bytes[offset] as bv32 + (bytes[offset + 1] as bv32) * 0x100 + (bytes[offset + 2] as bv32) * 0x1_0000
  {
  }

  /** The big-endian word, read as an unsigned integer: byte `offset + k` weighs 256^(3-k). */
  lemma UInt32FromBEBytesNat(bytes: seq<byte>, offset: nat)
    requires offset + 4 <= |bytes|
    ensures WordValue.ToNat(UInt32FromBEBytes(bytes, offset))
         == bytes[offset] as int * 0x100_0000 + bytes[offset + 1] as int * 0x1_0000
            + bytes[offset + 2] as int * 0x100 + bytes[offset + 3] as int
  {
    WordValue.ToNatOfBytes(bytes[offset], bytes[offset + 1], bytes[offset + 2], bytes[offset + 3]);
  }

  /** The little-endian word, read as an unsigned integer: byte `offset + k` weighs 256^k. */
  lemma UInt32FromLEBytesNat(bytes: seq<byte>, offset: nat)
    requires offset + 4 <= |bytes|
    ensures WordValue.ToNat(UInt32FromLEBytes(bytes, offset))
         == bytes[offset] as int + bytes[offset + 1] as int * 0x100
            + bytes[offset + 2] as int * 0x1_0000 + bytes[offset + 3] as int * 0x100_0000
  {
    assert UInt32FromLEBytes(bytes, offset)
        == WordValue.WordOfBytes(bytes[offset + 3], bytes[offset + 2], bytes[offset + 1], bytes[offset]);
    WordValue.ToNatOfBytes(bytes[offset + 3], bytes[offset + 2], bytes[offset + 1], bytes[offset]);
  }

  /** The 24-bit word, read as an unsigned integer: byte `offset + k` weighs 256^k. */
  lemma UInt24FromLEBytesNat(bytes: seq<byte>, offset: nat)
    requires offset + 3 <= |bytes|
    ensures WordValue.ToNat(UInt24FromLEBytes(bytes, offset))
         == bytes[offset] as int + bytes[offset + 1] as int * 0x100 + bytes[offset + 2] as int * 0x1_0000
  {
    assert UInt24FromLEBytes(bytes, offset)
        == WordValue.WordOfBytes(0, bytes[offset + 2], bytes[offset + 1], bytes[offset]);
    WordValue.ToNatOfBytes(0, bytes[offset + 2], bytes[offset + 1], bytes[offset]);
  }

  /** Where four bytes are available, the 24-bit word is the low 24 bits of the 32-bit one. */
  lemma UInt24IsLow24(bytes: seq<byte>, offset: nat)
    requires offset + 4 <= |bytes|
    ensures UInt24FromLEBytes(bytes, offset) == UInt32FromLEBytes(bytes, offset) & 0xFF_FFFF
  {
  }

  /** Little-endian decoding is big-endian decoding of the same four bytes in reverse order. */
  lemma LEIsReversedBE(bytes: seq<byte>, offset: nat)
    requires offset + 4 <= |bytes|
    ensures UInt32FromLEBytes(bytes, offset)
         == UInt32FromBEBytes([bytes[offset + 3], bytes[offset + 2], bytes[offset + 1], bytes[offset]], 0)
  {
  }

  /** The big-endian 64-bit word is the 32-bit word at `offset` over the one at `offset + 4`. */
  lemma UInt64FromBEBytesHalves(bytes: seq<byte>, offset: nat)
    requires offset + 8 <= |bytes|
    ensures UInt64FromBEBytes(bytes, offset) >> 32 == UInt32FromBEBytes(bytes, offset) as bv64
    ensures UInt64FromBEBytes(bytes, offset) & 0xFFFF_FFFF == UInt32FromBEBytes(bytes, offset + 4) as bv64
  {
  }

  // ---------------------------------------------------------------------
  // The bytes each encoder writes, as values
  // ---------------------------------------------------------------------

  /** The four bytes `BEBytesFromUInt32` writes: most significant first. */
  function BEBytes32(value: bv32): (r: seq<byte>)
    ensures |r| == 4
  {
    [((value >> 24) & 0xFF) as byte, ((value >> 16) & 0xFF) as byte,
     ((value >> 8) & 0xFF) as byte, (value & 0xFF) as byte]
  }

  /** The eight bytes `BEBytesFromUInt64` writes: most significant first. */
  function BEBytes64(value: bv64): (r: seq<byte>)
    ensures |r| == 8
  {
    [((value >> 56) & 0xFF) as byte, ((value >> 48) & 0xFF) as byte,
     ((value >> 40) & 0xFF) as byte, ((value >> 32) & 0xFF) as byte,
     ((value >> 24) & 0xFF) as byte, ((value >> 16) & 0xFF) as byte,
     ((value >> 8) & 0xFF) as byte, (value & 0xFF) as byte]
  }

  /** The three bytes `LEBytesFromUInt24` writes: the low 24 bits of `value`, least significant first. */
  function LEBytes24(value: bv32): (r: seq<byte>)
    ensures |r| == 3
  {
    [(value & 0xFF) as byte, ((value >> 8) & 0xFF) as byte, ((value >> 16) & 0xFF) as byte]
  }

  /** The four bytes `LEBytesFromUInt32` writes: the 24-bit encoding, then the top byte. */
  function LEBytes32(value: bv32): (r: seq<byte>)
    ensures |r| == 4
  {
    LEBytes24(value) + [((value >> 24) & 0xFF) as byte]
  }

  // ---------------------------------------------------------------------
  // Round trips
  // ---------------------------------------------------------------------

  lemma BEBytes32RoundTrip(value: bv32)
    ensures UInt32FromBEBytes(BEBytes32(value), 0) == value
  {
  }

  lemma BEBytes64RoundTrip(value: bv64)
    ensures UInt64FromBEBytes(BEBytes64(value), 0) == value
  {
  }

  /** A value below 2^24 survives the 24-bit encoding; a larger one loses its top byte. */
  lemma LEBytes24RoundTrip(value: bv32)
    ensures UInt24FromLEBytes(LEBytes24(value), 0) == value & 0xFF_FFFF
    ensures value < 0x100_0000 <==> UInt24FromLEBytes(LEBytes24(value), 0) == value
  {
  }

  lemma LEBytes32RoundTrip(value: bv32)
    ensures UInt32FromLEBytes(LEBytes32(value), 0) == value
  {
  }

  /** Decoding, then encoding, gives back the bytes at the offset. */
  lemma BEBytes32OfDecoded(bytes: seq<byte>, offset: nat)
    requires offset + 4 <= |bytes|
    ensures BEBytes32(UInt32FromBEBytes(bytes, offset)) == bytes[offset .. offset + 4]
  {
  }

  lemma BEBytes64OfDecoded(bytes: seq<byte>, offset: nat)
    requires offset + 8 <= |bytes|
    ensures BEBytes64(UInt64FromBEBytes(bytes, offset)) == bytes[offset .. offset + 8]
  {
  }

  lemma LEBytes24OfDecoded(bytes: seq<byte>, offset: nat)
    requires offset + 3 <= |bytes|
    ensures LEBytes24(UInt24FromLEBytes(bytes, offset)) == bytes[offset .. offset + 3]
  {
  }

  lemma LEBytes32OfDecoded(bytes: seq<byte>, offset: nat)
    requires offset + 4 <= |bytes|
    ensures LEBytes32(UInt32FromLEBytes(bytes, offset)) == bytes[offset .. offset + 4]
  {
  }

  /** Each decoder reads only the bytes of its window. */
  lemma BE32Window(bytes: seq<byte>, offset: nat)
    requires offset + 4 <= |bytes|
    ensures UInt32FromBEBytes(bytes, offset) == UInt32FromBEBytes(bytes[offset .. offset + 4], 0)
  {
    var w := bytes[offset .. offset + 4];
    assert w[0] == bytes[offset] && w[1] == bytes[offset + 1] && w[2] == bytes[offset + 2] && w[3] == bytes[offset + 3];
  }

  lemma BE64Window(bytes: seq<byte>, offset: nat)
    requires offset + 8 <= |bytes|
    ensures UInt64FromBEBytes(bytes, offset) == UInt64FromBEBytes(bytes[offset .. offset + 8], 0)
  {
    var w := bytes[offset .. offset + 8];
    assert w[0] == bytes[offset] && w[1] == bytes[offset + 1] && w[2] == bytes[offset + 2] && w[3] == bytes[offset + 3];
    assert w[4] == bytes[offset + 4] && w[5] == bytes[offset + 5] && w[6] == bytes[offset + 6] && w[7] == bytes[offset + 7];
  }

  lemma LE24Window(bytes: seq<byte>, offset: nat)
    requires offset + 3 <= |bytes|
    ensures UInt24FromLEBytes(bytes, offset) == UInt24FromLEBytes(bytes[offset .. offset + 3], 0)
  {
    var w := bytes[offset .. offset + 3];
    assert w[0] == bytes[offset] && w[1] == bytes[offset + 1] && w[2] == bytes[offset + 2];
  }

  lemma LE32Window(bytes: seq<byte>, offset: nat)
    requires offset + 4 <= |bytes|
    ensures UInt32FromLEBytes(bytes, offset) == UInt32FromLEBytes(bytes[offset .. offset + 4], 0)
  {
    var w := bytes[offset .. offset + 4];
    assert w[0] == bytes[offset] && w[1] == bytes[offset + 1] && w[2] == bytes[offset + 2] && w[3] == bytes[offset + 3];
    LE24Window(bytes, offset);
    LE24Window(w, 0);
  }

  /** Eight equal bytes make an equal window. */
  lemma Window8(bytes: seq<byte>, offset: nat, enc: seq<byte>)
    requires |enc| == 8 && offset + 8 <= |bytes|
    requires bytes[offset] == enc[0] && bytes[offset + 1] == enc[1] && bytes[offset + 2] == enc[2]
    requires bytes[offset + 3] == enc[3] && bytes[offset + 4] == enc[4] && bytes[offset + 5] == enc[5]
    requires bytes[offset + 6] == enc[6] && bytes[offset + 7] == enc[7]
    ensures bytes[offset .. offset + 8] == enc
  {
  }

  /** Whatever surrounds them, the bytes an encoder writes decode to the value written. */
  lemma BE32Written(bytes: seq<byte>, offset: nat, value: bv32)
    requires offset + 4 <= |bytes| && bytes[offset .. offset + 4] == BEBytes32(value)
    ensures UInt32FromBEBytes(bytes, offset) == value
  {
    BE32Window(bytes, offset);
    BEBytes32RoundTrip(value);
  }

  lemma BE64Written(bytes: seq<byte>, offset: nat, value: bv64)
    requires offset + 8 <= |bytes| && bytes[offset .. offset + 8] == BEBytes64(value)
    ensures UInt64FromBEBytes(bytes, offset) == value
  {
    BE64Window(bytes, offset);
    BEBytes64RoundTrip(value);
  }

  lemma LE24Written(bytes: seq<byte>, offset: nat, value: bv32)
    requires offset + 3 <= |bytes| && bytes[offset .. offset + 3] == LEBytes24(value)
    ensures value < 0x100_0000 ==> UInt24FromLEBytes(bytes, offset) == value
  {
    LE24Window(bytes, offset);
    LEBytes24RoundTrip(value);
  }

  lemma LE32Written(bytes: seq<byte>, offset: nat, value: bv32)
    requires offset + 4 <= |bytes| && bytes[offset .. offset + 4] == LEBytes32(value)
    ensures UInt32FromLEBytes(bytes, offset) == value
  {
    LE32Window(bytes, offset);
    LEBytes32RoundTrip(value);
  }

  // ---------------------------------------------------------------------
  // Encoders, in place
  // ---------------------------------------------------------------------

  method BEBytesFromUInt32(value: bv32, bytes: array<byte>, offset: nat)
    requires offset + 4 <= bytes.Length
    modifies bytes
    ensures bytes[offset .. offset + 4] == BEBytes32(value)
    ensures UInt32FromBEBytes(bytes[..], offset) == value
    ensures bytes[..offset] == old(bytes[..offset]) && bytes[offset + 4..] == old(bytes[offset + 4..])
  {
    bytes[offset + 0] := ((value >> 24) & 0xFF) as byte;
    bytes[offset + 1] := ((value >> 16) & 0xFF) as byte;
    bytes[offset + 2] := ((value >> 8) & 0xFF) as byte;
    bytes[offset + 3] := (value & 0xFF) as byte;
    assert bytes[offset .. offset + 4] == BEBytes32(value);
    BE32Written(bytes[..], offset, value);
  }

  method BEBytesFromUInt64(value: bv64, bytes: array<byte>, offset: nat)
    requires offset + 8 <= bytes.Length
    modifies bytes
    ensures bytes[offset .. offset + 8] == BEBytes64(value)
    ensures UInt64FromBEBytes(bytes[..], offset) == value
    ensures bytes[..offset] == old(bytes[..offset]) && bytes[offset + 8..] == old(bytes[offset + 8..])
  {
    var encoded := BEBytes64(value);  // the eight truncating casts, most significant byte first
    bytes[offset + 0] := encoded[0];
    bytes[offset + 1] := encoded[1];
    bytes[offset + 2] := encoded[2];
    bytes[offset + 3] := encoded[3];
    bytes[offset + 4] := encoded[4];
    bytes[offset + 5] := encoded[5];
    bytes[offset + 6] := encoded[6];
    bytes[offset + 7] := encoded[7];
    ghost var written := bytes[..];
    assert written[offset .. offset + 8] == BEBytes64(value) by {
      Window8(written, offset, BEBytes64(value));
    }
    BE64Written(written, offset, value);
  }

  method LEBytesFromUInt24(value: bv32, bytes: array<byte>, offset: nat)
    requires offset + 3 <= bytes.Length
    modifies bytes
    ensures bytes[offset .. offset + 3] == LEBytes24(value)
    ensures value < 0x100_0000 ==> UInt24FromLEBytes(bytes[..], offset) == value
    ensures bytes[..offset] == old(bytes[..offset]) && bytes[offset + 3..] == old(bytes[offset + 3..])
  {
    bytes[offset + 2] := ((value >> 16) & 0xFF) as byte;
    bytes[offset + 1] := ((value >> 8) & 0xFF) as byte;
    bytes[offset + 0] := (value & 0xFF) as byte;
    assert bytes[offset .. offset + 3] == LEBytes24(value);
    LE24Written(bytes[..], offset, value);
  }

  method LEBytesFromUInt32(value: bv32, bytes: array<byte>, offset: nat)
    requires offset + 4 <= bytes.Length
    modifies bytes
    ensures bytes[offset .. offset + 4] == LEBytes32(value)
    ensures UInt32FromLEBytes(bytes[..], offset) == value
    ensures bytes[..offset] == old(bytes[..offset]) && bytes[offset + 4..] == old(bytes[offset + 4..])
  {
    bytes[offset + 3] := ((value >> 24) & 0xFF) as byte;
    LEBytesFromUInt24(value, bytes, offset);
    assert bytes[offset .. offset + 4] == LEBytes32(value);
    LE32Written(bytes[..], offset, value);
  }
}
