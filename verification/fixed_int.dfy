/** The `FixedInt` codec: every fixed-width integer type converted to and from a
    buffer of exactly its width in bytes, always little-endian on the wire. One
    parametrised model stands for the ten macro instances (`u8` .. `u64`, `usize`,
    `i8` .. `i64`, `isize`); the host byte order is an explicit parameter. */
module FixedInt {
  import opened Bytes
  import opened IntTypes
  import opened Outcomes

  /** The wire format: exactly one byte per byte of the type, byte i holding bits
      [8i, 8i+8) of the value's unsigned or two's-complement pattern. */
  ghost predicate WireImage(t: IntType, v: int, bs: seq<Byte>)
    requires InRange(t, v)
  {
    && |bs| == SizeOf(t)
    && forall i :: 0 <= i < |bs| ==> bs[i] == Digit(ToUnsigned(t, v), i)
  }

  /** The little-endian layout of a value's bit pattern is its wire image. */
  lemma LeBytesIsWireImage(t: IntType, v: int)
    requires InRange(t, v)
    ensures WireImage(t, v, LeBytes(SizeOf(t), ToUnsigned(t, v)))
  {
    var u := ToUnsigned(t, v);
    forall i | 0 <= i < SizeOf(t)
      ensures LeBytes(SizeOf(t), u)[i] == Digit(u, i)
    {
      LeBytesDigit(SizeOf(t), u, i);
    }
  }

  /** A value has exactly one wire image: its little-endian layout. */
  lemma WireImageIsLeBytes(t: IntType, v: int, bs: seq<Byte>)
    requires InRange(t, v)
    requires WireImage(t, v, bs)
    ensures bs == LeBytes(SizeOf(t), ToUnsigned(t, v))
  {
    LeBytesIsWireImage(t, v);
  }

  /** `required_space()` / `REQUIRED_SPACE`: the type's width in bytes. */
  function RequiredSpace(t: IntType): (r: nat)
    ensures 8 * r == t.width.Bits()
    ensures r == 1 || r == 2 || r == 4 || r == 8
  {
    SizeOf(t)
  }

  /** What `encode_fixed` copies into `dst`: the native bytes, reversed first on a
      big-endian host when there is more than one byte. On either host that is
      the wire image. */
  lemma EncodedIsWireImage(host: Endian, t: IntType, v: int)
    requires InRange(t, v)
    ensures
      var encoded := NativeBytes(host, t, v);
      WireImage(t, v, if host == Big && RequiredSpace(t) > 1 then Reverse(encoded) else encoded)
  {
    var le := LeBytes(SizeOf(t), ToUnsigned(t, v));
    LeBytesIsWireImage(t, v);
    if host == Big {
      ReverseReverse(le);
      ReverseShort(le);
    }
  }

  /** `encode_fixed(self, dst)`: the new contents of `dst`. A `dst` of any length
      other than `REQUIRED_SPACE` is a panic, never truncation or padding; the old
      contents of `dst` are overwritten entirely. */
  function EncodeFixed(host: Endian, t: IntType, v: int, dst: seq<Byte>): (r: Outcome<seq<Byte>>)
    requires InRange(t, v)
    ensures r.Done? <==> |dst| == RequiredSpace(t)
    ensures !r.Done? ==> r == Panic(RequiredSpace(t), |dst|)
    ensures r.Done? ==> WireImage(t, v, r.value)
  {
    if |dst| != RequiredSpace(t) then
      Panic(RequiredSpace(t), |dst|)
    else
      var encoded := NativeBytes(host, t, v);
      EncodedIsWireImage(host, t, v);
      if host == Big && RequiredSpace(t) > 1 then
        Done(Reverse(encoded))
      else
        Done(encoded)
  }

  /** `encode_fixed_vec(self)`: a fresh zeroed buffer of `required_space()` bytes,
      filled by `encode_fixed`. */
  function EncodeFixedVec(host: Endian, t: IntType, v: int): (r: seq<Byte>)
    requires InRange(t, v)
    ensures |r| == RequiredSpace(t)
    ensures WireImage(t, v, r)
    ensures LeValue(r) == ToUnsigned(t, v)
  {
    var zeroed: seq<Byte> := seq(RequiredSpace(t), _ => 0);
    var written := EncodeFixed(host, t, v, zeroed).value;
    WireImageIsLeBytes(t, v, written);
    LeValueOfLeBytes(SizeOf(t), ToUnsigned(t, v));
    written
  }

  /** `decode_fixed(src)` with the length check its documentation demands made
      explicit on every host: a `src` of any other length is a panic. Every
      bit pattern of the right length decodes; the result's bit pattern is the
      little-endian number `src` denotes. */
  function DecodeFixed(host: Endian, t: IntType, src: seq<Byte>): (r: Outcome<int>)
    ensures r.Done? <==> |src| == RequiredSpace(t)
    ensures !r.Done? ==> r == Panic(RequiredSpace(t), |src|)
    ensures r.Done? ==> InRange(t, r.value) && ToUnsigned(t, r.value) == LeValue(src)
  {
    if |src| != RequiredSpace(t) then
      Panic(RequiredSpace(t), |src|)
    else if host == Big && RequiredSpace(t) > 1 then
      ReverseReverse(src);
      Done(FromNative(host, t, Reverse(src)))
    else
      ReverseShort(src);
      Done(FromNative(host, t, src))
  }

  /** `decode_fixed` as the macro writes it. On a little-endian host, and for
      one-byte types on either host, it reads `REQUIRED_SPACE` bytes from the
      start of `src` without looking at its length: a shorter `src` is read past
      its end, a longer one has its tail ignored. Only the big-endian multi-byte
      path checks the length, through the slice copy. */
  function DecodeFixedAsWritten(host: Endian, t: IntType, src: seq<Byte>): (r: Outcome<int>)
    ensures host == Big && RequiredSpace(t) > 1 ==>
              (r.Done? <==> |src| == RequiredSpace(t)) &&
              (!r.Done? ==> r == Panic(RequiredSpace(t), |src|))
    ensures host == Little || RequiredSpace(t) == 1 ==>
              (r.Done? <==> |src| >= RequiredSpace(t)) &&
              (!r.Done? ==> r == OutOfBounds(RequiredSpace(t), |src|))
    ensures r.Done? ==>
              |src| >= RequiredSpace(t) && InRange(t, r.value) &&
              ToUnsigned(t, r.value) == LeValue(src[..RequiredSpace(t)])
  {
    var n := RequiredSpace(t);
    if host == Little || n == 1 then
      if |src| < n then
        OutOfBounds(n, |src|)
      else
        ReverseShort(src[..n]);
        Done(FromNative(host, t, src[..n]))
    else if |src| != n then
      Panic(n, |src|)
    else
      ReverseReverse(src);
      assert src[..n] == src;
      Done(FromNative(host, t, Reverse(src)))
  }

  /** `decode_fixed_vec(v)`: asserts the length, then decodes. */
  function DecodeFixedVec(host: Endian, t: IntType, v: seq<Byte>): (r: Outcome<int>)
    ensures r.Done? <==> |v| == RequiredSpace(t)
    ensures !r.Done? ==> r == Panic(RequiredSpace(t), |v|)
    ensures r.Done? ==> InRange(t, r.value) && ToUnsigned(t, r.value) == LeValue(v)
  {
    if |v| != RequiredSpace(t) then
      Panic(RequiredSpace(t), |v|)
    else
      DecodeFixed(host, t, v)
  }

  /** `switch_endianness(self)`: the value whose native bytes are this value's
      native bytes in reverse order. The `size_of == REQUIRED_SPACE` assertion
      always holds, because every instance defines `REQUIRED_SPACE` as `size_of`. */
  function SwitchEndianness(host: Endian, t: IntType, v: int): (r: int)
    requires InRange(t, v)
    ensures InRange(t, r)
    ensures NativeBytes(host, t, r) == Reverse(NativeBytes(host, t, v))
  {
    var reversed := Reverse(NativeBytes(host, t, v));
    NativeOfFromNative(host, t, reversed);
    FromNative(host, t, reversed)
  }

  /** `encode_fixed_light(&self)`: a view of the value's own memory, in host order.
      It is the encoded buffer on a little-endian host and its reverse on a
      big-endian one. */
  function EncodeFixedLight(host: Endian, t: IntType, v: int): (r: seq<Byte>)
    requires InRange(t, v)
    ensures |r| == RequiredSpace(t)
    ensures host == Little ==> r == EncodeFixedVec(host, t, v)
    ensures host == Big ==> r == Reverse(EncodeFixedVec(host, t, v))
  {
    WireImageIsLeBytes(t, v, EncodeFixedVec(host, t, v));
    NativeBytes(host, t, v)
  }
}
