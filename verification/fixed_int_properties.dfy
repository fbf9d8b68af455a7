/** Properties of the `FixedInt` codec that relate several calls: round trips,
    independence from host byte order, and the byte-order reversal helper. */
module FixedIntProperties {
  import opened Bytes
  import opened IntTypes
  import opened Outcomes
  import opened FixedInt

  /** Two values of a type with the same bit pattern are the same value. */
  lemma ToUnsignedInjective(t: IntType, a: int, b: int)
    requires InRange(t, a) && InRange(t, b)
    requires ToUnsigned(t, a) == ToUnsigned(t, b)
    ensures a == b
  {
    FromToUnsigned(t, a);
    FromToUnsigned(t, b);
  }

  /** The bytes `encode_fixed` writes do not depend on the host's byte order. */
  lemma EncodeFixedHostIndependent(t: IntType, v: int, dst: seq<Byte>)
    requires InRange(t, v)
    ensures EncodeFixed(Little, t, v, dst) == EncodeFixed(Big, t, v, dst)
  {
    var little := EncodeFixed(Little, t, v, dst);
    var big := EncodeFixed(Big, t, v, dst);
    if little.Done? {
      WireImageIsLeBytes(t, v, little.value);
      WireImageIsLeBytes(t, v, big.value);
    }
  }

  /** Nor does the value `decode_fixed` reads. */
  lemma DecodeFixedHostIndependent(t: IntType, src: seq<Byte>)
    ensures DecodeFixed(Little, t, src) == DecodeFixed(Big, t, src)
  {
    var little := DecodeFixed(Little, t, src);
    var big := DecodeFixed(Big, t, src);
    if little.Done? {
      ToUnsignedInjective(t, little.value, big.value);
    }
  }

  /** The decoder as written also reads the same value on both hosts, as long as
      the slice has exactly `REQUIRED_SPACE` bytes. */
  lemma AsWrittenHostIndependentOnExactLength(t: IntType, src: seq<Byte>)
    requires |src| == RequiredSpace(t)
    ensures DecodeFixedAsWritten(Little, t, src) == DecodeFixedAsWritten(Big, t, src)
  {
    DecodeFixedVecGuardsAsWritten(Little, t, src);
    DecodeFixedVecGuardsAsWritten(Big, t, src);
    DecodeFixedHostIndependent(t, src);
  }

  /** Round trip: every value survives encoding and decoding, whichever hosts do
      the writing and the reading. */
  lemma RoundTrip(writer: Endian, reader: Endian, t: IntType, v: int)
    requires InRange(t, v)
    ensures DecodeFixedVec(reader, t, EncodeFixedVec(writer, t, v)) == Done(v)
  {
    var decoded := DecodeFixedVec(reader, t, EncodeFixedVec(writer, t, v));
    ToUnsignedInjective(t, decoded.value, v);
  }

  /** The other round trip: every buffer of the right length decodes, and
      encoding the result gives the buffer back. */
  lemma DecodeEncode(host: Endian, t: IntType, src: seq<Byte>)
    requires |src| == RequiredSpace(t)
    ensures DecodeFixedVec(host, t, src).Done?
    ensures EncodeFixedVec(host, t, DecodeFixedVec(host, t, src).value) == src
  {
    var v := DecodeFixedVec(host, t, src).value;
    LeValueInjective(EncodeFixedVec(host, t, v), src);
  }

  /** The length assertion in `decode_fixed_vec` makes it safe even over the
      unchecked `decode_fixed`: the two decoders agree on every input. */
  lemma DecodeFixedVecGuardsAsWritten(host: Endian, t: IntType, v: seq<Byte>)
    ensures DecodeFixedVec(host, t, v) ==
              if |v| != RequiredSpace(t) then Panic(RequiredSpace(t), |v|)
              else DecodeFixedAsWritten(host, t, v)
  {
    if |v| == RequiredSpace(t) {
      var a := DecodeFixedVec(host, t, v);
      var b := DecodeFixedAsWritten(host, t, v);
      assert v[..RequiredSpace(t)] == v;
      ToUnsignedInjective(t, a.value, b.value);
    }
  }

  /** The round trip through the decoder as written: a buffer from
      `encode_fixed_vec` always has the right length, so the unchecked
      `decode_fixed` gives the value back on every pair of hosts. */
  lemma RoundTripAsWritten(writer: Endian, reader: Endian, t: IntType, v: int)
    requires InRange(t, v)
    ensures DecodeFixedAsWritten(reader, t, EncodeFixedVec(writer, t, v)) == Done(v)
  {
    RoundTrip(writer, reader, t, v);
    DecodeFixedVecGuardsAsWritten(reader, t, EncodeFixedVec(writer, t, v));
  }

  /** Byte-order reversal is an involution. */
  lemma SwitchEndiannessInvolution(host: Endian, t: IntType, v: int)
    requires InRange(t, v)
    ensures SwitchEndianness(host, t, SwitchEndianness(host, t, v)) == v
  {
    var once := SwitchEndianness(host, t, v);
    var twice := SwitchEndianness(host, t, once);
    ReverseReverse(NativeBytes(host, t, v));
    FromNativeOfNative(host, t, twice);
    FromNativeOfNative(host, t, v);
  }

  /** A one-byte value has no byte order to reverse. */
  lemma SwitchEndiannessSingleByte(host: Endian, t: IntType, v: int)
    requires InRange(t, v)
    requires RequiredSpace(t) == 1
    ensures SwitchEndianness(host, t, v) == v
  {
    var r := SwitchEndianness(host, t, v);
    ReverseShort(NativeBytes(host, t, v));
    FromNativeOfNative(host, t, r);
    FromNativeOfNative(host, t, v);
  }

  /** Reversing the value reverses its wire bytes. */
  lemma SwitchEndiannessReversesWire(host: Endian, t: IntType, v: int)
    requires InRange(t, v)
    ensures EncodeFixedVec(host, t, SwitchEndianness(host, t, v)) == Reverse(EncodeFixedVec(host, t, v))
  {
    var r := SwitchEndianness(host, t, v);
    assert EncodeFixedLight(host, t, r) == Reverse(EncodeFixedLight(host, t, v));
    if host == Big {
      ReverseReverse(EncodeFixedVec(host, t, r));
      ReverseReverse(EncodeFixedVec(host, t, v));
    }
  }

  /** `switch_endianness` gives the same value on either host. */
  lemma SwitchEndiannessHostIndependent(t: IntType, v: int)
    requires InRange(t, v)
    ensures SwitchEndianness(Little, t, v) == SwitchEndianness(Big, t, v)
  {
    var a := SwitchEndianness(Little, t, v);
    var b := SwitchEndianness(Big, t, v);
    SwitchEndiannessReversesWire(Little, t, v);
    SwitchEndiannessReversesWire(Big, t, v);
    EncodeFixedHostIndependent(t, v, EncodeFixedVec(Little, t, v));
    EncodeFixedHostIndependent(t, b, EncodeFixedVec(Little, t, b));
    ToUnsignedInjective(t, a, b);
  }

  /** The documented use of `switch_endianness`: decoding a big-endian buffer
      and switching the result yields the value whose bit pattern the buffer
      spells most significant byte first. */
  lemma SwitchEndiannessReadsBigEndian(host: Endian, t: IntType, src: seq<Byte>)
    requires |src| == RequiredSpace(t)
    ensures DecodeFixedVec(host, t, src).Done?
    ensures ToUnsigned(t, SwitchEndianness(host, t, DecodeFixedVec(host, t, src).value)) == LeValue(Reverse(src))
  {
    var v := DecodeFixedVec(host, t, src).value;
    DecodeEncode(host, t, src);
    SwitchEndiannessReversesWire(host, t, v);
  }

  /** For one-byte types no reordering happens anywhere: the memory view equals
      the encoded buffer on both hosts. */
  lemma SingleByteNeverReordered(host: Endian, t: IntType, v: int)
    requires InRange(t, v)
    requires RequiredSpace(t) == 1
    ensures EncodeFixedLight(host, t, v) == EncodeFixedVec(host, t, v)
  {
    ReverseShort(EncodeFixedVec(host, t, v));
  }
}
