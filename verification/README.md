# FixedInt: a verified model of the fixed-width integer codec

This project models `FixedInt`, the fixed-width integer codec of integer-encoding-rs.
For each integer type of width N ∈ {1, 2, 4, 8} bytes, signed or unsigned, the codec
converts a value to and from an N-byte buffer. That buffer is always little-endian,
whatever the byte order of the host. The codec also has a byte-order reversal helper
(`switch_endianness`) and a zero-copy view of a value's memory in host order
(`encode_fixed_light`).

The `impl_fixedint!` macro writes out one implementation per type. The model replaces
these with a single definition over `IntType(width, signed)`. The host byte order,
which the source picks with `#[cfg(target_endian)]`, becomes an explicit `Endian`
parameter. Values are unbounded `int`s that must lie in the type's range. Signed values
are mapped to their bit pattern by two's complement (`ToUnsigned`/`FromUnsigned`).
Bytes are `seq<Byte>`. The source reinterprets memory through `transmute` and
`read_unaligned`. The model replaces that with two explicit functions: `NativeBytes`
gives a value's bytes in host order, and `FromNative` reads a value back from bytes in
host order.

Every length-assertion failure is modelled as `Panic(expected, actual)` from the
`Outcome` datatype. `OutOfBounds` is a read past the end of a slice, which is possible
only in the unchecked `decode_fixed` (see Findings).

Files:
- `outcomes.dfy`: the `Outcome` datatype.
- `bytes.dfy`: little-endian digits, the `LeBytes`/`LeValue` pair, `Reverse`, and the
  division lemmas the rest relies on.
- `int_types.dfy`: widths, ranges, two's complement and the host memory layout.
- `fixed_int.dfy`: the trait's operations.
- `fixed_int_properties.dfy`: round trips, host independence and the laws of
  `switch_endianness`.
- `scenarios.dfy`: concrete cases, including the inputs behind the finding.

The doc comment at `src/fixed.rs:5` says the output uses machine endianness. The code,
and the doc comment at `src/fixed.rs:31-33`, say it is always little-endian. The model
follows the code.

## Model

| member | source | states |
|---|---|---|
| IntTypes.SizeOf | src/fixed.rs:53 | the in-memory size of each instance is its bit width divided by 8 |
| IntTypes.ToUnsigned | src/fixed.rs:72-73 | a value's bit pattern is below 2^bits and congruent to the value modulo 2^bits; for signed types it is at least 2^(bits-1) exactly when the value is negative |
| IntTypes.FromUnsigned | src/fixed.rs:89 | reinterpreting any bit pattern gives an in-range value whose bit pattern is that pattern (inverse of ToUnsigned) |
| IntTypes.FromToUnsigned | src/fixed.rs:72-73 | two's complement loses nothing: the value is recovered from its bit pattern |
| IntTypes.NativeBytes | src/fixed.rs:59-66 | a value occupies exactly size_of bytes of host memory |
| IntTypes.FromNative | src/fixed.rs:89 | reading size_of bytes of memory always yields an in-range value |
| IntTypes.FromNativeOfNative | src/fixed.rs:72-73 | reading a value's own memory image back gives the value, on either host |
| IntTypes.NativeOfFromNative | src/fixed.rs:89 | every byte pattern of the right size is the memory image of the value read from it |
| FixedInt.RequiredSpace | src/fixed.rs:53-57 | REQUIRED_SPACE is the type's width in bytes, one of 1, 2, 4, 8 |
| FixedInt.EncodedIsWireImage | src/fixed.rs:72-84 | native bytes, reversed on a big-endian host when N > 1, are the little-endian wire image on both hosts |
| FixedInt.EncodeFixed | src/fixed.rs:68-85 | succeeds exactly when dst has REQUIRED_SPACE bytes, otherwise panics with both lengths; byte i of the result holds bits [8i, 8i+8) of the value's bit pattern, whatever dst held before |
| FixedInt.EncodeFixedVec | src/fixed.rs:19-24 | returns exactly required_space() bytes, the little-endian wire image of the value, denoting its bit pattern |
| FixedInt.DecodeFixed | src/fixed.rs:87-103 | the corrected decoder: succeeds exactly when src has REQUIRED_SPACE bytes, otherwise panics; every such buffer decodes to an in-range value whose bit pattern is the little-endian number src denotes |
| FixedInt.DecodeFixedAsWritten | src/fixed.rs:87-103 | the decoder as written: the big-endian multi-byte path panics on a length mismatch; on a little-endian host, and for 1-byte types on either host, a short slice is read past its end and a long one is decoded from its first N bytes |
| FixedInt.DecodeFixedVec | src/fixed.rs:26-29 | asserts the length, then decodes: succeeds exactly on REQUIRED_SPACE bytes, giving the value the bytes denote little-endian |
| FixedInt.SwitchEndianness | src/fixed.rs:34-47 | the result is in range and its native bytes are the reverse of the argument's native bytes |
| FixedInt.EncodeFixedLight | src/fixed.rs:59-66 | the memory view equals the encode_fixed_vec bytes on a little-endian host and their reverse on a big-endian host |
| FixedIntProperties.EncodeFixedHostIndependent | src/fixed.rs:68-85 | encode_fixed writes the same bytes, or panics the same way, on little- and big-endian hosts |
| FixedIntProperties.DecodeFixedHostIndependent | src/fixed.rs:87-103 | the length-checked decode_fixed reads the same value, or panics the same way, on both hosts (the decoder as written does not: see Findings) |
| FixedIntProperties.AsWrittenHostIndependentOnExactLength | src/fixed.rs:87-103 | the decoder as written reads the same value on both hosts when the slice has exactly REQUIRED_SPACE bytes |
| FixedIntProperties.RoundTrip | src/fixed.rs:19-29 | decode_fixed_vec of encode_fixed_vec gives back every in-range value, even when the writing and reading hosts differ |
| FixedIntProperties.RoundTripAsWritten | src/fixed.rs:68-103 | the unchecked decode_fixed of encode_fixed_vec gives back every in-range value, on every pair of writing and reading hosts |
| FixedIntProperties.DecodeEncode | src/fixed.rs:26-29 | every REQUIRED_SPACE-byte buffer decodes, and re-encoding the result reproduces the buffer |
| FixedIntProperties.DecodeFixedVecGuardsAsWritten | src/fixed.rs:26-29 | because of its length assertion, decode_fixed_vec over the unchecked decode_fixed agrees with the checked decoder on every input |
| FixedIntProperties.SwitchEndiannessInvolution | src/fixed.rs:34-47 | switching byte order twice is the identity |
| FixedIntProperties.SwitchEndiannessSingleByte | src/fixed.rs:34-47 | switching byte order of a 1-byte type changes nothing |
| FixedIntProperties.SwitchEndiannessReversesWire | src/fixed.rs:31-47 | the switched value's little-endian encoding is the reverse of the original's |
| FixedIntProperties.SwitchEndiannessHostIndependent | src/fixed.rs:34-47 | switch_endianness gives the same value on both hosts |
| FixedIntProperties.SwitchEndiannessReadsBigEndian | src/fixed.rs:31-33 | decoding a buffer and switching the result yields the value the buffer spells in big-endian order |
| FixedIntProperties.SingleByteNeverReordered | src/fixed.rs:76 | for 1-byte types the memory view equals the encoded buffer on both hosts |
| FixedIntScenarios.EncodeU32Example | src/fixed.rs:68-85 | 0x01020304 as u32 encodes to [4, 3, 2, 1] |
| FixedIntScenarios.DecodeI32AllOnes | src/fixed.rs:87-103 | [0xFF, 0xFF, 0xFF, 0xFF] decodes as i32 to -1 |
| FixedIntScenarios.EncodeU8Example | src/fixed.rs:34-47 | 200 as u8 encodes to [200], and switching its byte order leaves it 200 |
| FixedIntScenarios.EncodeI16MinusOne | src/fixed.rs:68-103 | -1 as i16 encodes to [0xFF, 0xFF], which decodes back to -1 |
| FixedIntScenarios.EncodeShortBufferPanics | src/fixed.rs:69 | a 3-byte dst for u32 panics with lengths 4 and 3 instead of being padded |
| FixedIntScenarios.LightViewDependsOnHost | src/fixed.rs:59-66 | 1 as u16 is viewed as [1, 0] on a little-endian host and [0, 1] on a big-endian one, while its encoding is the same on both |
| FixedIntScenarios.AsWrittenAcceptsLongSlice | src/fixed.rs:87-90 | the unchecked decoder on a little-endian host decodes a 5-byte u32 slice from its prefix; a big-endian host and the checked decoder panic |
| FixedIntScenarios.AsWrittenReadsPastShortSlice | src/fixed.rs:87-95 | the unchecked decoder reads past the end of a 3-byte u32 slice on a little-endian host and of an empty u8 slice on either host; the checked decoder panics |

## Left out

- Raw-pointer mechanics (`transmute`, `from_raw_parts`, `read_unaligned`): replaced by the pure functions `NativeBytes` and `FromNative`. Aliasing, alignment and lifetimes have no counterpart.
- The borrow returned by `encode_fixed_light`: modelled as the byte sequence it views.
- `Vec` allocation (`resize`, slicing): only the resulting length and contents are modelled.
- The word width of `usize`/`isize`: it is not fixed. These types are `IntType(w, signed)` for whatever width `w` the host has.
- The `size_of == REQUIRED_SPACE` assertion in `switch_endianness`: it cannot fail for the macro instances, because line 53 defines `REQUIRED_SPACE` as `size_of`. It is therefore not a branch of `SwitchEndianness`. A hand-written `FixedInt` impl with a wrong `REQUIRED_SPACE` is not modelled.
- The panic messages' text: a panic keeps only the two lengths it compares.
- Concurrency: the codec has no shared state.

## Findings

| source | as written | input that shows it | evidently intended | confidence | as-written member | corrected member |
|---|---|---|---|---|---|---|
| src/fixed.rs:87-95 | `decode_fixed` does not check `src.len()` on a little-endian host, nor for 1-byte types on a big-endian host. It reads `REQUIRED_SPACE` bytes from the start of `src`. | `u32` on a little-endian host: `[1, 2, 3]` is read past its end; `[4, 3, 2, 1, 9]` decodes to 0x01020304, while a big-endian host panics. `u8` with `[]` on either host is read past its end. | The length requirement in the doc comment (line 12) holds on every host, as it already does on the big-endian multi-byte path: any other length panics. | high (not executed) | FixedInt.DecodeFixedAsWritten, with FixedIntScenarios.AsWrittenAcceptsLongSlice and FixedIntScenarios.AsWrittenReadsPastShortSlice | FixedInt.DecodeFixed, with FixedIntProperties.DecodeFixedHostIndependent and FixedIntProperties.RoundTrip |
