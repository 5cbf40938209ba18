/** The stream side of the codec: WriteTo pushes a value's bytes into a
    writer, and the three readers (Read<K>Safe, Read<K>N, Read<K>) take a
    value's bytes out of a reader. The writer is the sequence of bytes
    written so far; the reader is the sequence of bytes not yet consumed. */
module Streams {
  import opened Wire
  import opened Outcomes
  import opened Scalars

  /** An in-memory io.Writer that accepts every byte it is given. */
  class Writer {
    var written: seq<Octet>

    constructor ()
      ensures written == []
    {
      written := [];
    }

    /** Appends the whole buffer and reports its length. */
    method Write(buf: array<Octet>) returns (n: nat)
      modifies this
      ensures written == old(written) + buf[..]
      ensures n == buf.Length
    {
      written := written + buf[..];
      n := buf.Length;
    }
  }

  /** An io.Reader over a finite byte sequence. A single Read may hand out
      fewer bytes than asked for, as io.Reader allows. */
  class Reader {
    var remaining: seq<Octet>

    constructor (input: seq<Octet>)
      ensures remaining == input
    {
      remaining := input;
    }

    /** Reads some bytes into buf[from..]: at least one when there is room and
      the input is not exhausted, none at end of input (io.EOF). */
    method Read(buf: array<Octet>, from: nat) returns (n: nat)
      requires from <= buf.Length
      modifies this, buf
      ensures from + n <= buf.Length && n <= |old(remaining)|
      ensures n == 0 <==> from == buf.Length || old(remaining) == []
      ensures buf[..from] == old(buf[..from])
      ensures buf[from..from + n] == old(remaining)[..n]
      ensures buf[from + n..] == old(buf[from + n..])
      ensures remaining == old(remaining)[n..]
    {
      var most := if buf.Length - from < |remaining| then buf.Length - from else |remaining|;
      n :| most > 0 ==> 1 <= n <= most;
      if most == 0 {
        n := 0;
      }
      var i := 0;
      while i < n
        invariant i <= n && from + n <= buf.Length && n <= |remaining|
        invariant buf[..from] == old(buf[..from])
        invariant buf[from..from + i] == remaining[..i]
        invariant buf[from + n..] == old(buf[from + n..])
        invariant remaining == old(remaining)
      {
        buf[from + i] := remaining[i];
        i := i + 1;
      }
      remaining := remaining[n..];
    }
  }

  function Min(a: nat, b: nat): (m: nat) {
    if a < b then a else b
  }

  /** io.ReadFull: calls Read until buf is full or the input ends. It reports
      the number of bytes read and, when that is fewer than buf holds, a short read. */
  method ReadFull(r: Reader, buf: array<Octet>) returns (n: nat, err: Option<Fault>)
    modifies r, buf
    ensures n == Min(buf.Length, |old(r.remaining)|)
    ensures buf[..n] == old(r.remaining)[..n]
    ensures buf[n..] == old(buf[n..])
    ensures r.remaining == old(r.remaining)[n..]
    ensures err == if n == buf.Length then None else Some(ShortRead(n))
  {
    n := 0;
    while n < buf.Length
      invariant n <= buf.Length && n <= |old(r.remaining)|
      invariant buf[..n] == old(r.remaining)[..n]
      invariant buf[n..] == old(buf[n..])
      invariant r.remaining == old(r.remaining)[n..]
      decreases buf.Length - n
    {
      var got := r.Read(buf, n);
      if got == 0 {
        break;
      }
      n := n + got;
    }
    err := if n == buf.Length then None else Some(ShortRead(n));
  }

  /** binary.LittleEndian.PutUint16/32/64: stores the little-endian digits of v
      into buf, one byte per step. */
  method PutLittleEndian(buf: array<Octet>, v: nat)
    requires v < Pow256(buf.Length)
    modifies buf
    ensures buf[..] == LeBytes(v, buf.Length)
  {
    var rest: nat := v;
    var i := 0;
    while i < buf.Length
      invariant i <= buf.Length
      invariant rest < Pow256(buf.Length - i)
      invariant LeBytes(v, buf.Length) == buf[..i] + LeBytes(rest, buf.Length - i)
    {
      buf[i] := rest % 256;
      rest := rest / 256;
      i := i + 1;
    }
  }

  /** binary.LittleEndian.Uint16/32/64: the number whose little-endian digits
      are the bytes of buf, accumulated from the most significant byte down. */
  method LittleEndianValue(buf: array<Octet>) returns (u: nat)
    ensures u == LeValue(buf[..])
  {
    u := 0;
    var i := buf.Length;
    while i > 0
      invariant 0 <= i <= buf.Length
      invariant u == LeValue(buf[i..])
    {
      i := i - 1;
      assert buf[i..][1..] == buf[i + 1..];
      u := buf[i] + 256 * u;
    }
    assert buf[..] == buf[0..];
  }

  /** WriteTo: the value's bytes, ByteSize of them, appended to the writer; the
      writer's count is returned. */
  method WriteTo(x: Value, w: Writer) returns (n: nat)
    modifies w
    ensures w.written == old(w.written) + Encode(x)
    ensures n == ByteSize(x.kind)
  {
    var buf := new Octet[ByteSize(x.kind)](_ => 0);
    PutLittleEndian(buf, ToUnsigned(x.kind, x.num));
    n := w.Write(buf);
  }

  /** What Read<K>Safe returns, and the input it leaves behind. */
  datatype ReadResult = ReadResult(value: Value, count: nat, err: Option<Fault>, rest: seq<Octet>)

  /** Read<K>Safe on the input `input`: with at least ByteSize(k) bytes, the
      value they encode, that many bytes consumed and no error; otherwise the
      zero value, all the bytes there were consumed, and a short read. */
  function ReadSafeResult(k: Kind, input: seq<Octet>): (r: ReadResult)
    ensures r.value.kind == k
    ensures r.count == Min(|input|, ByteSize(k))
    ensures input == input[..r.count] + r.rest
    ensures r.err.None? <==> |input| >= ByteSize(k)
    ensures r.err.Some? ==> r.value.num == 0 && r.err.value == ShortRead(|input|)
    ensures r.err.None? ==> Encode(r.value) == input[..ByteSize(k)]
  {
    var w := ByteSize(k);
    if |input| < w then
      ReadResult(Zero(k), |input|, Some(ShortRead(|input|)), [])
    else
      EncodeDecode(k, input[..w]);
      ReadResult(Decode(k, input[..w]), w, None, input[w..])
  }

  /** Read<K>Safe: reads ByteSize(k) bytes with io.ReadFull and decodes them,
      or returns the zero value, the count read and the error. */
  method ReadSafe(k: Kind, r: Reader) returns (x: Value, n: nat, err: Option<Fault>)
    modifies r
    ensures ReadResult(x, n, err, r.remaining) == ReadSafeResult(k, old(r.remaining))
  {
    var buf := new Octet[ByteSize(k)](_ => 0);
    n, err := ReadFull(r, buf);
    if err.Some? {
      return Zero(k), n, err;
    }
    assert buf[..] == old(r.remaining)[..n];
    var u := LittleEndianValue(buf);
    ToFromUnsigned(k, u);
    x := Scalar(k, FromUnsigned(k, u));
    assert x == Decode(k, old(r.remaining)[..n]);
  }

  /** The panicking wrappers, with the panic made explicit: the value and
      count of a successful read, or an abort carrying the read's error. */
  function Strict(res: ReadResult): (o: Outcome<(Value, nat)>)
    ensures o.Abort? <==> res.err.Some?
    ensures o.Abort? ==> o.fault == res.err.value
    ensures o.Done? ==> o.value == (res.value, res.count)
  {
    match res.err
    case Some(e) => Abort(e)
    case None => Done((res.value, res.count))
  }

  /** Read<K>N: Read<K>Safe, aborting when it reports an error. */
  method ReadN(k: Kind, r: Reader) returns (o: Outcome<(Value, nat)>)
    modifies r
    ensures o == Strict(ReadSafeResult(k, old(r.remaining)))
    ensures r.remaining == ReadSafeResult(k, old(r.remaining)).rest
  {
    var x, n, err := ReadSafe(k, r);
    if err.Some? {
      return Abort(err.value);
    }
    return Done((x, n));
  }

  /** Read<K>: Read<K>Safe without the count, aborting when it reports an error. */
  method Read(k: Kind, r: Reader) returns (o: Outcome<Value>)
    modifies r
    ensures o.Abort? <==> Strict(ReadSafeResult(k, old(r.remaining))).Abort?
    ensures o.Abort? ==> o.fault == Strict(ReadSafeResult(k, old(r.remaining))).fault
    ensures o.Done? ==> o.value == Strict(ReadSafeResult(k, old(r.remaining))).value.0
    ensures r.remaining == ReadSafeResult(k, old(r.remaining)).rest
  {
    var x, _, err := ReadSafe(k, r);
    if err.Some? {
      return Abort(err.value);
    }
    return Done(x);
  }

  /** Round trip: reading x's kind from a stream that starts with the bytes
      WriteTo emits for x gives x back, ByteSize bytes consumed, no error, and
      leaves whatever followed unconsumed. */
  lemma SafeReadAfterEncode(x: Value, rest: seq<Octet>)
    ensures ReadSafeResult(x.kind, Encode(x) + rest) == ReadResult(x, ByteSize(x.kind), None, rest)
  {
    var input := Encode(x) + rest;
    var w := ByteSize(x.kind);
    assert input[..w] == Encode(x);
    assert input[w..] == rest;
    DecodeEncode(x);
  }

  /** Short read: with fewer than ByteSize(k) bytes available, Read<K>Safe
      returns the zero value, the number of bytes there were, a short-read
      error, and leaves the stream empty. */
  lemma SafeReadShort(k: Kind, input: seq<Octet>)
    requires |input| < ByteSize(k)
    ensures ReadSafeResult(k, input) == ReadResult(Zero(k), |input|, Some(ShortRead(|input|)), [])
  {
  }

  /** A one-byte stream read as UInt16 gives (0, 1, short read). */
  lemma SafeReadShortExample()
    ensures ReadSafeResult(UInt16, [0x34]) == ReadResult(Scalar(UInt16, 0), 1, Some(ShortRead(1)), [])
  {
  }

  /** The strict readers abort exactly when the input is shorter than the
      kind's width, and otherwise return what Read<K>Safe returns. */
  lemma StrictAbortsOnShortInput(k: Kind, input: seq<Octet>)
    ensures Strict(ReadSafeResult(k, input)).Abort? <==> |input| < ByteSize(k)
    ensures Strict(ReadSafeResult(k, input)).Abort? ==> Strict(ReadSafeResult(k, input)).fault == ShortRead(|input|)
    ensures |input| >= ByteSize(k) ==>
      Strict(ReadSafeResult(k, input)) == Done((Decode(k, input[..ByteSize(k)]), ByteSize(k)))
  {
  }

  /** Values written one after another are read back in the same order. */
  lemma SafeReadSequence(x: Value, y: Value, rest: seq<Octet>)
    ensures ReadSafeResult(x.kind, Encode(x) + Encode(y) + rest).rest == Encode(y) + rest
    ensures ReadSafeResult(x.kind, Encode(x) + Encode(y) + rest).value == x
    ensures ReadSafeResult(y.kind, ReadSafeResult(x.kind, Encode(x) + Encode(y) + rest).rest).value == y
  {
    var tail := Encode(y) + rest;
    ConcatAssoc(Encode(x), Encode(y), rest);
    SafeReadAfterEncode(x, tail);
    SafeReadAfterEncode(y, rest);
  }

  /** The whole stream path: WriteTo into an empty writer, then Read<K>Safe
      from a reader over what was written, gives back x with ByteSize bytes
      read and no error. */
  method WriteThenRead(x: Value) returns (y: Value, n: nat, err: Option<Fault>)
    ensures y == x && n == ByteSize(x.kind) && err == None
  {
    var w := new Writer();
    var written := WriteTo(x, w);
    var r := new Reader(w.written);
    SafeReadAfterEncode(x, []);
    assert w.written == Encode(x) + [];
    y, n, err := ReadSafe(x.kind, r);
  }
}
