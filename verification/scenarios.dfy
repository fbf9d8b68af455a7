/** Worked instances of the codec, and the inputs that separate the unchecked
    `decode_fixed` from the checked one. */
module FixedIntScenarios {
  import opened Bytes
  import opened IntTypes
  import opened Outcomes
  import opened FixedInt
  import opened FixedIntProperties

  const U8 := IntType(W8, false)
  const U16 := IntType(W16, false)
  const U32 := IntType(W32, false)
  const I16 := IntType(W16, true)
  const I32 := IntType(W32, true)

  /** The encoded buffer spelled out as the value's little-endian layout, so that
      the cases below reduce to computing that layout. */
  lemma EncodedLayout(host: Endian, t: IntType, v: int)
    requires InRange(t, v)
    ensures EncodeFixedVec(host, t, v) == LeBytes(SizeOf(t), ToUnsigned(t, v))
  {
    WireImageIsLeBytes(t, v, EncodeFixedVec(host, t, v));
  }

  /** The 4-byte layout of 0x01020304, computed on its own. */
  lemma LayoutU32()
    ensures LeBytes(4, 0x01020304) == [0x04, 0x03, 0x02, 0x01]
  {
  }

  /** The 2-byte layout of 1, computed on its own. */
  lemma LayoutU16()
    ensures LeBytes(2, 1) == [1, 0]
  {
  }

  /** `0x01020304u32` is written least significant byte first. */
  lemma EncodeU32Example(host: Endian)
    ensures EncodeFixedVec(host, U32, 0x01020304) == [0x04, 0x03, 0x02, 0x01]
  {
    EncodedLayout(host, U32, 0x01020304);
    LayoutU32();
  }

  /** Four 0xFF bytes read as `i32` are -1. */
  lemma DecodeI32AllOnes(host: Endian)
    ensures DecodeFixedVec(host, I32, [0xFF, 0xFF, 0xFF, 0xFF]) == Done(-1)
  {
    var r := DecodeFixedVec(host, I32, [0xFF, 0xFF, 0xFF, 0xFF]);
    assert ToUnsigned(I32, -1) == LeValue([0xFF, 0xFF, 0xFF, 0xFF]);
    ToUnsignedInjective(I32, r.value, -1);
  }

  /** `200u8` is the single byte 200, and reversing its byte order changes nothing. */
  lemma EncodeU8Example(host: Endian)
    ensures EncodeFixedVec(host, U8, 200) == [200]
    ensures SwitchEndianness(host, U8, 200) == 200
  {
    EncodedLayout(host, U8, 200);
    SwitchEndiannessSingleByte(host, U8, 200);
  }

  /** `-1i16` is two 0xFF bytes, which decode back to -1. */
  lemma EncodeI16MinusOne(host: Endian)
    ensures EncodeFixedVec(host, I16, -1) == [0xFF, 0xFF]
    ensures DecodeFixedVec(host, I16, [0xFF, 0xFF]) == Done(-1)
  {
    EncodedLayout(host, I16, -1);
    assert ToUnsigned(I16, -1) == 0xFFFF;
    assert LeBytes(2, 0xFFFF) == [0xFF, 0xFF];
    RoundTrip(host, host, I16, -1);
  }

  /** A buffer one byte short panics in `encode_fixed`; it is not padded. */
  lemma EncodeShortBufferPanics(host: Endian)
    ensures EncodeFixed(host, U32, 7, [0, 0, 0]) == Panic(4, 3)
  {
  }

  /** The memory view differs between hosts for a multi-byte type, while the
      encoded buffer does not. */
  lemma LightViewDependsOnHost()
    ensures EncodeFixedLight(Little, U16, 1) == [1, 0]
    ensures EncodeFixedLight(Big, U16, 1) == [0, 1]
    ensures EncodeFixedVec(Little, U16, 1) == EncodeFixedVec(Big, U16, 1)
  {
    EncodedLayout(Little, U16, 1);
    EncodedLayout(Big, U16, 1);
    LayoutU16();
  }

  /** The unchecked `decode_fixed` on a little-endian host accepts a five-byte
      slice for `u32` and decodes its first four bytes, where a big-endian host
      panics and the checked decoder panics on both. */
  lemma AsWrittenAcceptsLongSlice()
    ensures DecodeFixedAsWritten(Little, U32, [4, 3, 2, 1, 9]) == Done(0x01020304)
    ensures DecodeFixedAsWritten(Big, U32, [4, 3, 2, 1, 9]) == Panic(4, 5)
    ensures DecodeFixed(Little, U32, [4, 3, 2, 1, 9]) == Panic(4, 5)
  {
    assert [4, 3, 2, 1, 9][..4] == [4, 3, 2, 1];
    assert LeValue([4, 3, 2, 1]) == 0x01020304;
  }

  /** The unchecked `decode_fixed` reads past the end of a three-byte slice for
      `u32` on a little-endian host, and past the end of an empty slice for `u8`
      on either host. */
  lemma AsWrittenReadsPastShortSlice(host: Endian)
    ensures DecodeFixedAsWritten(Little, U32, [1, 2, 3]) == OutOfBounds(4, 3)
    ensures DecodeFixedAsWritten(host, U8, []) == OutOfBounds(1, 0)
    ensures DecodeFixed(Little, U32, [1, 2, 3]) == Panic(4, 3)
    ensures DecodeFixed(host, U8, []) == Panic(1, 0)
  {
  }
}
