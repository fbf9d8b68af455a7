/** The integer types the codec is instantiated for, their value ranges, two's
    complement, and how a value sits in host memory. */
module IntTypes {
  import opened Bytes

  /** Host byte order, fixed when the program is built. */
  datatype Endian = Little | Big

  /** Bit widths of the instantiated types. The pointer-sized `usize`/`isize`
      are one of these, whichever is the host's word width. */
  datatype Width = W8 | W16 | W32 | W64 {
    function Bits(): (r: nat)
    {
      match this
      case W8 => 8
      case W16 => 16
      case W32 => 32
      case W64 => 64
    }
  }

  /** One instance of the codec: `u8` is `IntType(W8, false)`, `i64` is
      `IntType(W64, true)`, and so on. */
  datatype IntType = IntType(width: Width, signed: bool)

  /** `size_of::<T>()`: the bytes a value of the type occupies in memory. */
  function SizeOf(t: IntType): (r: nat)
    ensures 8 * r == t.width.Bits()
  {
    match t.width
    case W8 => 1
    case W16 => 2
    case W32 => 4
    case W64 => 8
  }

  /** The number of distinct values of the type, 2^bits. */
  function Modulus(t: IntType): (r: nat)
  {
    Pow256(SizeOf(t))
  }

  /** 2^(bits-1): the bound of a signed type, half the modulus. */
  function Half(t: IntType): (r: int)
    ensures r > 0
    ensures 2 * r == Modulus(t)
  {
    128 * Pow256(SizeOf(t) - 1)
  }

  /** The values of the type: [0, 2^bits) unsigned, [-2^(bits-1), 2^(bits-1)) signed. */
  predicate InRange(t: IntType, v: int)
  {
    if t.signed then -Half(t) <= v < Half(t) else 0 <= v < Modulus(t)
  }

  /** The unsigned bit pattern of a value: itself when unsigned or non-negative,
      its two's complement otherwise. */
  function ToUnsigned(t: IntType, v: int): (r: nat)
    requires InRange(t, v)
    ensures r < Modulus(t)
    ensures (r - v) % Modulus(t) == 0
    ensures !t.signed ==> r == v
    ensures t.signed ==> (v < 0 <==> r >= Half(t))
  {
    if v < 0 then v + Modulus(t) else v
  }

  /** The value a bit pattern stands for in the type. */
  function FromUnsigned(t: IntType, u: nat): (r: int)
    requires u < Modulus(t)
    ensures InRange(t, r)
    ensures ToUnsigned(t, r) == u
  {
    if t.signed && u >= Half(t) then u - Modulus(t) else u
  }

  /** Two's complement is lossless: every value is recovered from its bit pattern. */
  lemma FromToUnsigned(t: IntType, v: int)
    requires InRange(t, v)
    ensures FromUnsigned(t, ToUnsigned(t, v)) == v
  {
  }

  /** The value's bytes as they sit in host memory: least significant first on a
      little-endian host, most significant first on a big-endian one. */
  function NativeBytes(host: Endian, t: IntType, v: int): (r: seq<Byte>)
    requires InRange(t, v)
    ensures |r| == SizeOf(t)
  {
    var le := LeBytes(SizeOf(t), ToUnsigned(t, v));
    if host == Little then le else Reverse(le)
  }

  /** Reinterpreting SizeOf(t) bytes of host memory as a value of the type (what
      an unaligned pointer read does). */
  function FromNative(host: Endian, t: IntType, mem: seq<Byte>): (r: int)
    requires |mem| == SizeOf(t)
    ensures InRange(t, r)
  {
    FromUnsigned(t, LeValue(if host == Little then mem else Reverse(mem)))
  }

  /** Reading a value's own bytes back yields the value. */
  lemma FromNativeOfNative(host: Endian, t: IntType, v: int)
    requires InRange(t, v)
    ensures FromNative(host, t, NativeBytes(host, t, v)) == v
  {
    var le := LeBytes(SizeOf(t), ToUnsigned(t, v));
    if host == Big {
      ReverseReverse(le);
    }
    LeValueOfLeBytes(SizeOf(t), ToUnsigned(t, v));
  }

  /** Every bit pattern of the right size is some value's memory image. */
  lemma NativeOfFromNative(host: Endian, t: IntType, mem: seq<Byte>)
    requires |mem| == SizeOf(t)
    ensures NativeBytes(host, t, FromNative(host, t, mem)) == mem
  {
    var le := if host == Little then mem else Reverse(mem);
    LeBytesOfLeValue(le);
    if host == Big {
      ReverseReverse(mem);
    }
  }
}
