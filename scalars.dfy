/** The nine scalar kinds of binary/int.go that have methods (Byte, Int8,
    UInt8, Int16, UInt16, Int32, UInt32, Int64, UInt64), written once and
    parameterised by width and signedness: comparison (Equals, Less), wire
    size (ByteSize), and the byte image of a value (what WriteTo emits and
    what Read<K>Safe decodes). */
module Scalars {
  import opened Wire
  import opened Outcomes

  datatype Kind = Byte | Int8 | UInt8 | Int16 | UInt16 | Int32 | UInt32 | Int64 | UInt64

  /** The number of bytes a value of kind k occupies on the wire. */
  function ByteSize(k: Kind): (w: nat)
    ensures w == 1 || w == 2 || w == 4 || w == 8
  {
    match k
    case Byte | Int8 | UInt8 => 1
    case Int16 | UInt16 => 2
    case Int32 | UInt32 => 4
    case Int64 | UInt64 => 8
  }

  /** The Int kinds hold two's-complement numbers; Byte and the UInt kinds do not. */
  predicate Signed(k: Kind) {
    k.Int8? || k.Int16? || k.Int32? || k.Int64?
  }

  /** The unsigned kind of the same width: the Go type the signed kinds are
      converted to before they are written (uint16(self) and so on). */
  function UnsignedOf(k: Kind): (u: Kind)
    ensures !Signed(u) && ByteSize(u) == ByteSize(k)
    ensures !Signed(k) ==> u == k
  {
    match k
    case Int8 => UInt8
    case Int16 => UInt16
    case Int32 => UInt32
    case Int64 => UInt64
    case _ => k
  }

  /** 2 to the number of bits of kind k. */
  function Modulus(k: Kind): (m: nat)
    ensures m >= 256 && m % 2 == 0
  {
    Pow256(ByteSize(k))
  }

  /** The numbers a Go value of kind k can hold. */
  predicate InRange(k: Kind, num: int) {
    if Signed(k) then -(Modulus(k) / 2) <= num < Modulus(k) / 2
    else 0 <= num < Modulus(k)
  }

  /** A value of one of the kinds, as Go's interface value carries it: its
      concrete type and its number. */
  datatype Scalar = Scalar(kind: Kind, num: int)

  type Value = x: Scalar | InRange(x.kind, x.num) witness Scalar(Byte, 0)

  /** The zero value of kind k, which the readers return on failure. */
  function Zero(k: Kind): (z: Value)
    ensures z.kind == k && z.num == 0
  {
    Scalar(k, 0)
  }

  /** Equals compares two Binary interface values with ==: true exactly when
      both the concrete kinds and the numbers agree. */
  predicate Equals(x: Value, y: Value)
    ensures Equals(x, y) <==> x.kind == y.kind && x.num == y.num
  {
    x == y
  }

  /** Less asserts that the other value has the receiver's kind (panicking
      otherwise) and then compares the numbers: signed order for the Int
      kinds, unsigned order for Byte and the UInt kinds. */
  function Less(x: Value, y: Value): (r: Outcome<bool>)
    ensures r.Abort? <==> x.kind != y.kind
    ensures r.Abort? ==> r.fault == KindMismatch
    ensures r.Done? ==> (r.value <==> x.num < y.num)
  {
    if y.kind == x.kind then Done(x.num < y.num) else Abort(KindMismatch)
  }

  /** Go's conversion of a kind-k number to the unsigned type of the same
      width: the same bit pattern read as unsigned (two's complement), i.e.
      the number in [0, 2^bits) that differs from num by 0 or 2^bits. */
  function ToUnsigned(k: Kind, num: int): (u: nat)
    requires InRange(k, num)
    ensures u < Modulus(k)
    ensures u == num || u == num + Modulus(k)
  {
    if num < 0 then num + Modulus(k) else num
  }

  /** Go's conversion of an unsigned bit pattern of k's width back to kind k
      (Int16(uint16) and so on): the number in k's range that differs from u
      by 0 or 2^bits. */
  function FromUnsigned(k: Kind, u: nat): (num: int)
    requires u < Modulus(k)
    ensures InRange(k, num)
    ensures u == num || u == num + Modulus(k)
  {
    if Signed(k) && u >= Modulus(k) / 2 then u - Modulus(k) else u
  }

  /** Converting to the unsigned pattern and back gives the original number. */
  lemma FromToUnsigned(k: Kind, num: int)
    requires InRange(k, num)
    ensures FromUnsigned(k, ToUnsigned(k, num)) == num
  {
  }

  /** Converting an unsigned pattern to kind k and back gives the pattern. */
  lemma ToFromUnsigned(k: Kind, u: nat)
    requires u < Modulus(k)
    ensures ToUnsigned(k, FromUnsigned(k, u)) == u
  {
  }

  /** The bytes WriteTo emits for x: the little-endian digits of x's
      unsigned bit pattern, ByteSize(x.kind) of them. */
  function Encode(x: Value): (r: seq<Octet>)
    ensures |r| == ByteSize(x.kind)
    ensures LeValue(r) == ToUnsigned(x.kind, x.num)
  {
    LeBytes(ToUnsigned(x.kind, x.num), ByteSize(x.kind))
  }

  /** The value Read<K>Safe builds from ByteSize(k) bytes: their weighted sum,
      converted from the unsigned type of that width to kind k. */
  function Decode(k: Kind, s: seq<Octet>): (x: Value)
    requires |s| == ByteSize(k)
    ensures x.kind == k
    ensures ToUnsigned(k, x.num) == LeValue(s)
  {
    var num := FromUnsigned(k, LeValue(s));
    ToFromUnsigned(k, LeValue(s));
    Scalar(k, num)
  }

  /** Round trip at the value level: decoding the bytes of x as x's kind gives x back. */
  lemma DecodeEncode(x: Value)
    ensures Decode(x.kind, Encode(x)) == x
  {
    var y := Decode(x.kind, Encode(x));
    assert ToUnsigned(x.kind, y.num) == ToUnsigned(x.kind, x.num);
    FromToUnsigned(x.kind, y.num);
    FromToUnsigned(x.kind, x.num);
  }

  /** Every byte string of the right width is the encoding of the value it decodes to. */
  lemma EncodeDecode(k: Kind, s: seq<Octet>)
    requires |s| == ByteSize(k)
    ensures Encode(Decode(k, s)) == s
  {
    LeBytesOfLeValue(s);
  }

  /** Equal values have identical encodings, and two values of one kind with
      identical encodings are equal: Equals is exactly "same kind, same bytes". */
  lemma EqualsIffSameBytes(x: Value, y: Value)
    ensures Equals(x, y) <==> x.kind == y.kind && Encode(x) == Encode(y)
  {
    if x.kind == y.kind && Encode(x) == Encode(y) {
      DecodeEncode(x);
      DecodeEncode(y);
    }
  }

  /** Byte order: byte i of the encoding is digit i (base 256) of the unsigned
      bit pattern, so the least significant byte is written first. */
  lemma EncodeByteOrder(x: Value, i: nat)
    requires i < ByteSize(x.kind)
    ensures Encode(x)[i] == (ToUnsigned(x.kind, x.num) / Pow256(i)) % 256
  {
    LeBytesAt(ToUnsigned(x.kind, x.num), ByteSize(x.kind), i);
  }

  /** A signed value is written as the unsigned value of the same width with
      the same bit pattern (Go's uint16(self) before PutUint16, and byte(self)
      for Int8). */
  lemma SignedWrittenAsUnsigned(x: Value)
    ensures InRange(UnsignedOf(x.kind), ToUnsigned(x.kind, x.num))
    ensures Encode(x) == Encode(Scalar(UnsignedOf(x.kind), ToUnsigned(x.kind, x.num)))
  {
  }

  /** The same bytes decoded as a signed kind and as its unsigned counterpart
      give the two's-complement reading and the plain weighted sum. */
  lemma SignedReadAsUnsigned(k: Kind, s: seq<Octet>)
    requires |s| == ByteSize(k)
    ensures Decode(UnsignedOf(k), s).num == LeValue(s)
    ensures Decode(k, s).num == FromUnsigned(k, LeValue(s))
  {
    FromToUnsigned(k, Decode(k, s).num);
  }

  /** Worked examples of what WriteTo emits. */
  lemma EncodeExamples()
    ensures Encode(Scalar(UInt16, 0x1234)) == [0x34, 0x12]
    ensures Encode(Scalar(Int8, -1)) == [0xFF]
    ensures Encode(Scalar(Byte, 7)) == [0x07]
  {
    assert Pow256(2) == 0x1_0000;
    assert LeBytes(0x12, 1) == [0x12];
    assert LeBytes(0xFF, 1) == [0xFF];
  }

  /** Worked examples of what Read<K>Safe decodes: one byte 0xFF is -1 as
      Int8 and 255 as UInt8. */
  lemma DecodeExamples()
    ensures Decode(Int8, [0xFF]).num == -1
    ensures Decode(UInt8, [0xFF]).num == 255
  {
    assert LeValue([0xFF]) == 0xFF;
    SignedReadAsUnsigned(Int8, [0xFF]);
  }

  /** 2 to the number of bits of each kind, with Go's constants written out. */
  lemma Moduli()
    ensures Modulus(Byte) == Modulus(Int8) == Modulus(UInt8) == 0x100
    ensures Modulus(Int16) == Modulus(UInt16) == 0x1_0000
    ensures Modulus(Int32) == Modulus(UInt32) == 0x1_0000_0000
    ensures Modulus(Int64) == Modulus(UInt64) == 0x1_0000_0000_0000_0000
  {
    assert Pow256(1) == 0x100;
    assert Pow256(2) == 0x1_0000;
    assert Pow256(3) == 0x100_0000;
    assert Pow256(4) == 0x1_0000_0000;
    assert Pow256(5) == 0x100_0000_0000;
    assert Pow256(6) == 0x1_0000_0000_0000;
    assert Pow256(7) == 0x100_0000_0000_0000;
    assert Pow256(8) == 0x1_0000_0000_0000_0000;
  }

  /** The boundary values of some kinds, as Go's math constants give them. */
  lemma Bounds()
    ensures InRange(Int8, -128) && InRange(Int8, 127) && !InRange(Int8, 128) && !InRange(Int8, -129)
    ensures InRange(UInt16, 0) && InRange(UInt16, 65535) && !InRange(UInt16, 65536) && !InRange(UInt16, -1)
    ensures InRange(Int64, -0x8000_0000_0000_0000) && InRange(Int64, 0x7FFF_FFFF_FFFF_FFFF)
    ensures !InRange(Int64, 0x8000_0000_0000_0000) && !InRange(Int64, -0x8000_0000_0000_0001)
    ensures InRange(UInt64, 0) && InRange(UInt64, 0xFFFF_FFFF_FFFF_FFFF)
    ensures !InRange(UInt64, 0x1_0000_0000_0000_0000) && !InRange(UInt64, -1)
  {
    Moduli();
  }

  /** Less is a strict total order on each kind: irreflexive, transitive and
      connected; across kinds it aborts. */
  lemma LessIsStrictOrder(x: Value, y: Value, z: Value)
    requires x.kind == y.kind == z.kind
    ensures Less(x, x) == Done(false)
    ensures Less(x, y) == Done(true) && Less(y, z) == Done(true) ==> Less(x, z) == Done(true)
    ensures Less(x, y) == Done(true) ==> Less(y, x) == Done(false)
    ensures !Equals(x, y) ==> Less(x, y) == Done(true) || Less(y, x) == Done(true)
  {
  }
}
