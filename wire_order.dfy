/** An independent reading of Less in terms of the wire: the numeric order of
    same-kind values is the dictionary order of their encodings read from the
    most significant byte down, with the sign bit inverted for the Int kinds.
    This states what "signed order for the Int kinds, unsigned order for Byte
    and the UInt kinds" means for the bytes WriteTo emits. */
module WireOrder {
  import opened Wire
  import opened Outcomes
  import opened Scalars

  function Reverse(s: seq<Octet>): (r: seq<Octet>)
    ensures |r| == |s|
  {
    if s == [] then [] else Reverse(s[1..]) + [s[0]]
  }

  /** Dictionary order on byte strings of equal length. */
  predicate LexLess(a: seq<Octet>, b: seq<Octet>)
    requires |a| == |b|
  {
    |a| > 0 && (a[0] < b[0] || (a[0] == b[0] && LexLess(a[1..], b[1..])))
  }

  /** A byte with its high bit (0x80) inverted. */
  function FlipHigh(b: Octet): (r: Octet) {
    if b < 128 then b + 128 else b - 128
  }

  /** The encoding with its top bit inverted when k is signed: this moves the
      negative numbers below the non-negative ones. */
  function FlipSign(k: Kind, s: seq<Octet>): (r: seq<Octet>)
    requires |s| == ByteSize(k)
    ensures |r| == |s|
  {
    if Signed(k) then s[..|s| - 1] + [FlipHigh(s[|s| - 1])] else s
  }

  /** The byte string whose dictionary order is the order of kind k. */
  function SortKey(k: Kind, s: seq<Octet>): (r: seq<Octet>)
    requires |s| == ByteSize(k)
    ensures |r| == ByteSize(k)
  {
    Reverse(FlipSign(k, s))
  }

  lemma {:induction false} ReverseInjective(s: seq<Octet>, t: seq<Octet>)
    requires |s| == |t|
    ensures Reverse(s) == Reverse(t) <==> s == t
  {
    if s != [] && Reverse(s) == Reverse(t) {
      var n := |s| - 1;
      assert Reverse(s)[..n] == Reverse(s[1..]) && Reverse(t)[..n] == Reverse(t[1..]);
      assert Reverse(s)[n] == s[0] && Reverse(t)[n] == t[0];
      ReverseInjective(s[1..], t[1..]);
      assert s == [s[0]] + s[1..] && t == [t[0]] + t[1..];
    }
  }

  /** Comparing two strings that end in one byte each: the prefixes decide,
      and the last bytes break a tie. */
  lemma {:induction false} LexLessSnoc(a: seq<Octet>, b: seq<Octet>, c: Octet, d: Octet)
    requires |a| == |b|
    ensures LexLess(a + [c], b + [d]) <==> LexLess(a, b) || (a == b && c < d)
  {
    if a != [] {
      assert (a + [c])[1..] == a[1..] + [c] && (b + [d])[1..] == b[1..] + [d];
      LexLessSnoc(a[1..], b[1..], c, d);
      if a[0] == b[0] && a[1..] == b[1..] {
        assert a == [a[0]] + a[1..] && b == [b[0]] + b[1..];
      }
    }
  }

  /** The weighted sum orders byte strings like the dictionary order of their
      reversals (most significant byte first). */
  lemma {:induction false} LeValueOrder(s: seq<Octet>, t: seq<Octet>)
    requires |s| == |t|
    ensures LeValue(s) < LeValue(t) <==> LexLess(Reverse(s), Reverse(t))
  {
    if s != [] {
      LeValueOrder(s[1..], t[1..]);
      LexLessSnoc(Reverse(s[1..]), Reverse(t[1..]), s[0], t[0]);
      ReverseInjective(s[1..], t[1..]);
      LeValueInjective(s[1..], t[1..]);
    }
  }

  /** The weight of the last byte of a string. */
  lemma {:induction false} LeValueSnoc(s: seq<Octet>, b: Octet)
    ensures LeValue(s + [b]) == LeValue(s) + b * Pow256(|s|)
  {
    if s != [] {
      var t := s[1..];
      assert (s + [b])[1..] == t + [b];
      LeValueSnoc(t, b);
      var rest, weight := LeValue(t), Pow256(|t|);
      assert Pow256(|s|) == 256 * weight;
      assert LeValue(s) == s[0] + 256 * rest;
      calc {
        LeValue(s + [b]);
        s[0] + 256 * LeValue(t + [b]);
        s[0] + 256 * (rest + b * weight);
        { MulShift256(b, weight); }
        s[0] + 256 * rest + b * (256 * weight);
        { assert b * (256 * weight) == b * Pow256(|s|); }
        LeValue(s) + b * Pow256(|s|);
      }
    }
  }

  /** Multiplying a product by 256 is multiplying one of its factors by 256.
      Kept apart from LeValueSnoc so that the nonlinear step is proved in an
      empty context. */
  lemma MulShift256(a: int, b: int)
    ensures 256 * (a * b) == a * (256 * b)
  {
  }

  /** A non-empty string is its front followed by its last byte. Kept apart
      from FlipSignValue so that the sequence equality is proved without the
      arithmetic of the weighted sums in scope. */
  lemma SplitLast(s: seq<Octet>)
    requires |s| > 0
    ensures s == s[..|s| - 1] + [s[|s| - 1]]
  {
  }

  /** Inverting the top bit adds half the modulus to an unsigned pattern
      below half the modulus and takes it away from one at or above: it
      adds half the modulus, modulo the modulus. */
  lemma FlipSignValue(k: Kind, s: seq<Octet>)
    requires |s| == ByteSize(k) && Signed(k)
    ensures LeValue(FlipSign(k, s)) == if LeValue(s) < Modulus(k) / 2
                                       then LeValue(s) + Modulus(k) / 2
                                       else LeValue(s) - Modulus(k) / 2
  {
    SplitLast(s);
    FlipTopByte(s[..|s| - 1], s[|s| - 1], Modulus(k));
  }

  /** FlipSignValue for the bytes p + [top], where m is 256 to their number. */
  lemma FlipTopByte(p: seq<Octet>, top: Octet, m: nat)
    requires m == Pow256(|p| + 1)
    ensures LeValue(p + [FlipHigh(top)]) == if LeValue(p + [top]) < m / 2
                                           then LeValue(p + [top]) + m / 2
                                           else LeValue(p + [top]) - m / 2
  {
    var f := FlipHigh(top);
    LeValueSnoc(p, top);
    LeValueSnoc(p, f);
    FlipTopDigit(LeValue(p + [top]), LeValue(p + [f]), LeValue(p), top, f, Pow256(|p|), m);
  }

  /** The arithmetic behind FlipSignValue: with low < weight, the top digit
      is below 128 exactly when the number is below 128 * weight, and
      inverting its high bit moves the number by 128 * weight. */
  lemma FlipTopDigit(v: nat, flipped: nat, low: nat, top: Octet, f: Octet, weight: nat, m: nat)
    requires low < weight && m == 256 * weight && f == FlipHigh(top)
    requires v == low + top * weight && flipped == low + f * weight
    ensures flipped == if v < m / 2 then v + m / 2 else v - m / 2
  {
    assert m / 2 == 128 * weight;
    if top < 128 {
      MulMonotone(weight, top, 127);
      assert f * weight == top * weight + 128 * weight;
    } else {
      MulMonotone(weight, 128, top);
      assert f * weight == top * weight - 128 * weight;
    }
  }

  /** The weighted sum of the sign-flipped encoding is the number itself,
      shifted up by 2^(bits-1) for signed kinds so that it is never negative. */
  lemma FlippedValue(x: Value)
    ensures LeValue(FlipSign(x.kind, Encode(x)))
         == if Signed(x.kind) then x.num + Modulus(x.kind) / 2 else x.num
  {
    if Signed(x.kind) {
      FlipSignValue(x.kind, Encode(x));
    }
  }

  /** Less on two values of one kind is the dictionary order of their sort
      keys: the encodings read most significant byte first, sign bit
      inverted for the Int kinds. */
  lemma LessIsWireOrder(x: Value, y: Value)
    requires x.kind == y.kind
    ensures Less(x, y) == Done(LexLess(SortKey(x.kind, Encode(x)), SortKey(y.kind, Encode(y))))
  {
    LeValueOrder(FlipSign(x.kind, Encode(x)), FlipSign(y.kind, Encode(y)));
    FlippedValue(x);
    FlippedValue(y);
  }

  /** Example: as Int8, 0xFF (-1) sorts below 0x01; as UInt8 it sorts above. */
  lemma WireOrderExample()
    ensures Less(Scalar(Int8, -1), Scalar(Int8, 1)) == Done(true)
    ensures Encode(Scalar(Int8, -1)) == Encode(Scalar(UInt8, 255))
    ensures Less(Scalar(UInt8, 255), Scalar(UInt8, 1)) == Done(false)
    ensures Less(Scalar(UInt8, 1), Scalar(UInt8, 255)) == Done(true)
  {
  }
}
