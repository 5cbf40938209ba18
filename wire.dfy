/** Octets and unsigned numbers written as little-endian base-256 digits.

    This is the arithmetic meaning of encoding/binary.LittleEndian as the codec
    uses it: PutUint16/32/64 store the digits of a number, least significant
    first, and Uint16/32/64 read them back as the weighted sum of the bytes. */
module Wire {

  /** One byte on the wire. */
  type Octet = x: int | 0 <= x < 256

  /** 256 raised to i: the weight of the byte at offset i. */
  function Pow256(i: nat): (r: nat)
    ensures r >= 1
  {
    if i == 0 then 1 else 256 * Pow256(i - 1)
  }

  /** The number whose little-endian digits are s: the sum of s[i] * 256^i. */
  function LeValue(s: seq<Octet>): (r: nat)
    ensures r < Pow256(|s|)
  {
    if s == [] then 0 else s[0] + 256 * LeValue(s[1..])
  }

  /** The w little-endian digits of v, least significant first. */
  function LeBytes(v: nat, w: nat): (r: seq<Octet>)
    requires v < Pow256(w)
    ensures |r| == w
    ensures LeValue(r) == v
  {
    if w == 0 then [] else [v % 256] + LeBytes(v / 256, w - 1)
  }

  /** Concatenation of byte strings is associative. Kept as a lemma so that
      callers whose context holds many sequence facts need not prove it. */
  lemma ConcatAssoc(a: seq<Octet>, b: seq<Octet>, c: seq<Octet>)
    ensures a + b + c == a + (b + c)
  {
  }

  /** Reading the digits back and writing them again gives the same bytes:
      every byte sequence is the encoding of exactly one number. */
  lemma {:induction false} LeBytesOfLeValue(s: seq<Octet>)
    ensures LeBytes(LeValue(s), |s|) == s
  {
    if s != [] {
      LeBytesOfLeValue(s[1..]);
      assert LeValue(s) % 256 == s[0];
      assert LeValue(s) / 256 == LeValue(s[1..]);
    }
  }

  /** Two byte sequences of the same length denote the same number only if
      they are equal. */
  lemma LeValueInjective(s: seq<Octet>, t: seq<Octet>)
    requires |s| == |t|
    ensures LeValue(s) == LeValue(t) <==> s == t
  {
    if LeValue(s) == LeValue(t) {
      LeBytesOfLeValue(s);
      LeBytesOfLeValue(t);
    }
  }

  /** If v = m * q + r with 0 <= r < m, then q is the quotient v / m and r
      the remainder v % m (Euclidean division). */
  lemma DivModUnique(v: int, m: nat, q: int, r: nat)
    requires m > 0 && r < m && v == m * q + r
    ensures v / m == q && v % m == r
  {
    var q', r' := v / m, v % m;
    assert v == m * q' + r';
    if q' < q {
      MulMonotone(m, q' + 1, q);
    } else if q' > q {
      MulMonotone(m, q + 1, q');
    }
  }

  /** Multiplying by a non-negative number preserves <=. */
  lemma MulMonotone(m: nat, a: int, b: int)
    requires a <= b
    ensures m * a <= m * b
  {
    assert m * b - m * a == m * (b - a);
  }

  /** Dividing by 256 and then by p is dividing by 256 * p. */
  lemma DivDiv256(v: nat, p: nat)
    requires p > 0
    ensures (v / 256) / p == v / (256 * p)
  {
    var a, b := v / 256, v % 256;
    var c, d := a / p, a % p;
    assert v == 256 * a + b;
    assert a == p * c + d;
    assert v == (256 * p) * c + (256 * d + b);
    assert 256 * d + b < 256 * p;
    DivModUnique(v, 256 * p, c, 256 * d + b);
  }

  /** Byte order: the byte at offset i is digit i of v in base 256, so the
      least significant byte comes first. */
  lemma {:induction false} LeBytesAt(v: nat, w: nat, i: nat)
    requires v < Pow256(w) && i < w
    ensures LeBytes(v, w)[i] == (v / Pow256(i)) % 256
  {
    if i == 0 {
      assert v / Pow256(0) == v;
    } else {
      var q, weight := v / 256, Pow256(i - 1);
      assert LeBytes(v, w)[i] == LeBytes(q, w - 1)[i - 1];
      LeBytesAt(q, w - 1, i - 1);
      DivDiv256(v, weight);
      assert q / weight == v / Pow256(i);
    }
  }
}
