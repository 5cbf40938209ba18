# Fixed-width scalar codec (binary/int.go) in Dafny

This project models the scalar codec of the `binary` package: the nine kinds
that carry methods (`Byte`, `Int8`, `UInt8`, `Int16`, `UInt16`, `Int32`,
`UInt32`, `Int64`, `UInt64`), each with `Equals`, `Less`, `ByteSize`,
`WriteTo` and the three readers `Read<K>Safe`, `Read<K>N` and `Read<K>`.
The nine near-identical blocks of the source are written once,
parameterised by the kind's width (1, 2, 4 or 8 bytes) and signedness.

- `wire.dfy` (module `Wire`): octets and base-256 little-endian digits, the
  arithmetic meaning of `encoding/binary.LittleEndian` (`PutUint16/32/64`
  writes the digits, `Uint16/32/64` takes their weighted sum).
- `outcomes.dfy` (module `Outcomes`): `Option`, the faults (`ShortRead`,
  `KindMismatch`) and `Outcome`, which turns a Go panic into an explicit
  `Abort(fault)`.
- `scalars.dfy` (module `Scalars`): kinds, ranges, `Equals`, `Less`,
  `ByteSize`, Go's two's-complement conversions between a signed kind and the
  unsigned type of the same width, and the byte image of a value (`Encode`,
  `Decode`), with the round-trip, byte-order and signed-encoding lemmas.
- `streams.dfy` (module `Streams`): the writer and the reader as classes whose
  state is a byte sequence (bytes written so far; bytes not yet consumed),
  `io.ReadFull` as a retry loop over a reader that may deliver fewer bytes
  than asked for, `WriteTo`, `ReadSafe`, `ReadN`, `Read`, and the pure
  function `ReadSafeResult` that specifies `ReadSafe`.
- `wire_order.dfy` (module `WireOrder`): an independent, byte-level reading of
  `Less`: the numeric order of two values of one kind is the dictionary order
  of their encodings read most significant byte first, with the sign bit
  inverted for the Int kinds.

`Equals` on values of different kinds returns false: `self == other` compares
a concrete value with an interface value, and they are equal only when the
interface's dynamic type is the value's type and the values are equal. The
model follows the code.

## Model

| member | source | states |
|---|---|---|
| `Scalars.ByteSize` | binary/int.go:178-180 | the wire size of every kind is 1, 2, 4 or 8 (1 for Byte/Int8/UInt8, 2, 4, 8 for the 16-, 32-, 64-bit kinds) |
| `Scalars.Signed` | binary/int.go:8-16 | the Int kinds (int8, int16, int32, int64) are two's-complement; Byte and the UInt kinds are unsigned |
| `Scalars.Modulus` | binary/int.go:8-16 | 2^bits of the kind's Go type: at least 2^8 and even, 256 to the byte size |
| `Scalars.InRange` | binary/int.go:8-16 | the numbers the kind's Go type holds: [-2^(bits-1), 2^(bits-1)) for the Int kinds, [0, 2^bits) for Byte and the UInt kinds |
| `Scalars.UnsignedOf` | binary/int.go:184 | each signed kind is written through the unsigned type of the same width; unsigned kinds map to themselves |
| `Scalars.Zero` | binary/int.go:193 | Go's zero value `K(0)`: kind k, number 0 |
| `Scalars.Equals` | binary/int.go:166-168 | true exactly when both the concrete kind and the number agree |
| `Scalars.Less` | binary/int.go:170-176 | aborts with KindMismatch exactly when the kinds differ; otherwise returns whether the receiver's number is below the other's |
| `Scalars.ToUnsigned` | binary/int.go:184 | `uint16(self)`: the result lies in [0, 2^bits) and differs from the number by 0 or 2^bits (same bit pattern) |
| `Scalars.FromUnsigned` | binary/int.go:195 | `Int16(uint16)`: the result lies in the kind's range and differs from the pattern by 0 or 2^bits |
| `Scalars.FromToUnsigned` | binary/int.go:182-196 | converting a number to its bit pattern and back returns the number |
| `Scalars.ToFromUnsigned` | binary/int.go:182-196 | converting a bit pattern to the kind and back returns the pattern |
| `Scalars.Encode` | binary/int.go:182-187 | the bytes of a value number exactly ByteSize and their little-endian weighted sum is the value's unsigned bit pattern |
| `Scalars.Decode` | binary/int.go:189-196 | decoding ByteSize bytes gives a value of the requested kind whose bit pattern is the bytes' weighted sum |
| `Scalars.DecodeEncode` | binary/int.go:182-196 | decoding the encoding of any value gives the value back |
| `Scalars.EncodeDecode` | binary/int.go:182-196 | every byte string of the kind's width is the encoding of the value it decodes to |
| `Scalars.EqualsIffSameBytes` | binary/int.go:166-168 | Equals holds exactly when the kinds agree and the encodings are identical (equal values encode alike, and only they) |
| `Scalars.EncodeByteOrder` | binary/int.go:232-237 | byte i of the encoding is base-256 digit i of the bit pattern: least significant byte first |
| `Scalars.SignedWrittenAsUnsigned` | binary/int.go:86-89 | a signed value is written exactly as the unsigned value of the same width with the same bit pattern |
| `Scalars.SignedReadAsUnsigned` | binary/int.go:139-145 | the same bytes read as the unsigned kind give the weighted sum, and read as the signed kind give its two's-complement reading |
| `Scalars.EncodeExamples` | binary/int.go:232-237 | UInt16 0x1234 is written [0x34, 0x12]; Int8 -1 is written [0xFF]; Byte 7 is written [0x07] |
| `Scalars.DecodeExamples` | binary/int.go:91-98 | the byte 0xFF reads as Int8 -1 and as UInt8 255 |
| `Scalars.Moduli` | binary/int.go:8-16 | 2^bits of each kind: 0x100 for Byte, Int8, UInt8; 0x1_0000, 0x1_0000_0000 and 0x1_0000_0000_0000_0000 for the 16-, 32- and 64-bit kinds |
| `Scalars.Bounds` | binary/int.go:8-16 | the limits of Go's int8 (-128..127), uint16 (0..65535), int64 (-2^63..2^63-1) and uint64 (0..2^64-1), and the first numbers outside them |
| `Scalars.LessIsStrictOrder` | binary/int.go:420-426 | on one kind Less is irreflexive, transitive, asymmetric and connected |
| `Wire.LeValue` | binary/int.go:245 | the weighted sum of n bytes is below 256^n |
| `Wire.LeBytes` | binary/int.go:234 | the little-endian digits of v number w and their weighted sum is v |
| `Wire.LeBytesOfLeValue` | binary/int.go:245 | writing back the digits of a byte string's weighted sum gives the same string |
| `Wire.LeValueInjective` | binary/int.go:245 | byte strings of one length with equal weighted sums are equal |
| `Wire.LeBytesAt` | binary/int.go:234 | byte i of the digits of v is (v / 256^i) mod 256 |
| `Streams.Writer.Write` | binary/int.go:185 | appends the whole buffer to what was written and reports its length |
| `Streams.Reader.Read` | binary/int.go:191 | hands out a non-empty prefix of the input (none at end of input), copying it into the buffer and consuming it |
| `Streams.ReadFull` | binary/int.go:191 | reads min(buffer size, available) bytes whatever the reader's chunking, consumes exactly those, and reports a short read exactly when the buffer is not filled |
| `Streams.PutLittleEndian` | binary/int.go:383-384 | fills the buffer with the little-endian digits of v |
| `Streams.LittleEndianValue` | binary/int.go:395 | returns the weighted sum of the buffer's bytes |
| `Streams.WriteTo` | binary/int.go:232-237 | appends exactly Encode(x) to the writer and returns ByteSize |
| `Streams.ReadSafeResult` | binary/int.go:239-246 | consumes min(available, ByteSize) bytes; no error exactly when ByteSize bytes were there, and then the value's encoding is those bytes; otherwise number 0 and ShortRead(count) |
| `Streams.ReadSafe` | binary/int.go:289-296 | returns the value, count and error of ReadSafeResult on the reader's input and leaves the reader at its rest |
| `Streams.Strict` | binary/int.go:198-212 | a successful read yields its value and count unchanged; a failed read aborts with the read's own error |
| `Streams.ReadN` | binary/int.go:448-454 | Read<K>N returns Strict of ReadSafe's result, aborting exactly when ReadSafe reports an error |
| `Streams.Read` | binary/int.go:456-462 | Read<K> returns ReadSafe's value alone, aborting exactly when ReadSafe reports an error |
| `Streams.SafeReadAfterEncode` | binary/int.go:432-446 | reading a kind from its encoding followed by anything gives the value, ByteSize, no error, and leaves the rest unconsumed |
| `Streams.SafeReadShort` | binary/int.go:439-444 | with fewer than ByteSize bytes the read returns zero, the bytes available, a short read, and an empty rest |
| `Streams.SafeReadShortExample` | binary/int.go:239-244 | one byte read as UInt16 gives (0, 1, short read) |
| `Streams.StrictAbortsOnShortInput` | binary/int.go:398-412 | the strict readers abort exactly when the input is shorter than ByteSize, with the short read as cause, and otherwise return the decoded value and ByteSize |
| `Streams.SafeReadSequence` | binary/int.go:382-396 | two values written back to back are read back in order |
| `Streams.WriteThenRead` | binary/int.go:332-346 | WriteTo into a writer and ReadSafe from a reader over the written bytes returns the value, ByteSize and no error |
| `WireOrder.LeValueOrder` | binary/int.go:320-326 | the weighted sum orders byte strings as the dictionary order of their most-significant-first reversals |
| `WireOrder.FlipSignValue` | binary/int.go:270-276 | inverting the top bit of a signed encoding adds 2^(bits-1) to a pattern below 2^(bits-1) and takes it away from one at or above (adds it modulo 2^bits) |
| `WireOrder.FlippedValue` | binary/int.go:270-276 | the weighted sum of the sign-flipped encoding is num + 2^(bits-1) for the Int kinds and num for the others: a non-negative number that grows with num |
| `WireOrder.LessIsWireOrder` | binary/int.go:370-376 | on one kind, Less is the dictionary order of the encodings read most significant byte first, with the sign bit inverted for the Int kinds |
| `WireOrder.WireOrderExample` | binary/int.go:74-80 | Int8 -1 sorts below Int8 1 although its byte 0xFF is UInt8 255, which sorts above UInt8 1 |

## Left out

- `Int` and `UInt` (binary/int.go:17-18): declared without methods in this file, and their width depends on the platform.
- The `Binary` interface is not part of this model: it is declared outside binary/int.go. `Equals` and `Less` are modelled only for arguments that are one of the nine kinds; a nil argument or an implementation of `Binary` from another file is not representable.
- Writer failures and partial writes: the writer accepts the whole buffer, so `WriteTo` always reports ByteSize bytes and no error; the relayed writer error is not modelled.
- Streams.WriteTo: returns only the byte count, because the modelled writer never fails, so its error result is always nil.
- Reader I/O errors other than end of input are not modelled; `io.EOF` (nothing read) and `io.ErrUnexpectedEOF` (some bytes read) are both `ShortRead(count)`.
- Panic messages ("Cannot compare unequal types", the wrapped read error) and panic recovery: a panic is `Abort(fault)` carrying the fault, not a message string, and after an abort the reader is left where the failed read left it.
- The conversion of counts to `int64`: counts never exceed 8, so no overflow arises.
