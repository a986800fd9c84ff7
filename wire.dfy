/**
 * Fixed-width integers on the wire: little-endian and big-endian byte
 * sequences, two's-complement reinterpretation, and the round trips between
 * values and their encodings.
 */
module Wire {

  /** An octet. */
  type byte = x: int | 0 <= x < 256

  /** The byte order a writer uses for multi-byte values. */
  datatype ByteOrder = LittleEndian | BigEndian

  function Pow256(n: nat): (r: nat)
    ensures r >= 1
  {
    if n == 0 then 1 else 256 * Pow256(n - 1)
  }

  /** The unsigned value of `s`, least significant byte first: sum of s[i] * 256^i. */
  function LeValue(s: seq<byte>): nat
  {
    if |s| == 0 then 0 else s[0] as nat + 256 * LeValue(s[1..])
  }

  /** The low `n` bytes of `v` in two's complement, least significant first. */
  function LeBytes(v: int, n: nat): (r: seq<byte>)
    ensures |r| == n
    decreases n
  {
    if n == 0 then [] else [v % 256] + LeBytes(v / 256, n - 1)
  }

  function Reverse(s: seq<byte>): (r: seq<byte>)
    ensures |r| == |s|
  {
    if |s| == 0 then [] else Reverse(s[1..]) + [s[0]]
  }

  /** The `n`-byte encoding of `v` (truncated to n bytes) in the given order. */
  function Encode(order: ByteOrder, v: int, n: nat): (r: seq<byte>)
    ensures |r| == n
  {
    if order == LittleEndian then LeBytes(v, n) else Reverse(LeBytes(v, n))
  }

  /** The unsigned value of a byte sequence read in the given order. */
  function Decode(order: ByteOrder, s: seq<byte>): nat
  {
    if order == LittleEndian then LeValue(s) else LeValue(Reverse(s))
  }

  function U16(order: ByteOrder, v: int): (r: seq<byte>)
    ensures |r| == 2
  {
    Encode(order, v, 2)
  }

  function U32(order: ByteOrder, v: int): (r: seq<byte>)
    ensures |r| == 4
  {
    Encode(order, v, 4)
  }

  /** The two's-complement value of an `n`-byte unsigned value `u`. */
  function ToSigned(u: nat, n: nat): int
  {
    if u < Pow256(n) / 2 then u else u - Pow256(n)
  }

  lemma {:induction false} LeValueBound(s: seq<byte>)
    ensures LeValue(s) < Pow256(|s|)
  {
    if |s| > 0 {
      LeValueBound(s[1..]);
    }
  }

  /** Euclidean division is unique: a helper for the round trips below. */
  lemma ModUnique(v: int, m: int, q: int, r: int)
    requires m > 0 && 0 <= r < m && v == m * q + r
    ensures v % m == r && v / m == q
  {
    var q', r' := v / m, v % m;
    assert m * q' + r' == m * q + r;
    if q' > q {
      assert m * q' >= m * (q + 1) by { MulMonotone(m, q + 1, q'); }
    } else if q' < q {
      assert m * q >= m * (q' + 1) by { MulMonotone(m, q' + 1, q); }
    }
  }

  lemma MulMonotone(m: int, a: int, b: int)
    requires m > 0 && a <= b
    ensures m * a <= m * b
  {
  }

  /** Decoding the encoding of `v` gives `v` modulo 256^n. */
  lemma {:induction false} LeRoundTrip(v: int, n: nat)
    ensures LeValue(LeBytes(v, n)) == v % Pow256(n)
    decreases n
  {
    if n > 0 {
      var q, r := v / 256, v % 256;
      var p := Pow256(n - 1);
      var k, b := q / p, q % p;
      assert Pow256(n) == 256 * p;
      assert LeValue(LeBytes(v, n)) == r + 256 * b by {
        var t := LeBytes(v, n);
        assert t[1..] == LeBytes(q, n - 1);
        LeRoundTrip(q, n - 1);
      }
      DivMod(v, 256);
      DivMod(q, p);
      Regroup(v, q, r, p, k, b);
      ModUnique(v, 256 * p, k, 256 * b + r);
    }
  }

  lemma DivMod(v: int, m: int)
    requires m > 0
    ensures v == m * (v / m) + v % m && 0 <= v % m < m
  {
  }

  /** v == 256q + r and q == pk + b give v == (256p)k + (256b + r). */
  lemma Regroup(v: int, q: int, r: int, p: int, k: int, b: int)
    requires p > 0 && v == 256 * q + r && 0 <= r < 256 && q == p * k + b && 0 <= b < p
    ensures v == (256 * p) * k + (256 * b + r) && 0 <= 256 * b + r < 256 * p
  {
    assert 256 * (p * k) == (256 * p) * k;
    MulMonotone(256, b + 1, p);
  }

  /** Encoding the value of `s` in |s| bytes gives `s` back. */
  lemma {:induction false} LeBytesOfValue(s: seq<byte>)
    ensures LeBytes(LeValue(s), |s|) == s
  {
    if |s| > 0 {
      var v := LeValue(s);
      ModUnique(v, 256, LeValue(s[1..]), s[0] as int);
      LeBytesOfValue(s[1..]);
    }
  }

  lemma {:induction false} ReverseReverse(s: seq<byte>)
    ensures Reverse(Reverse(s)) == s
  {
    if |s| > 0 {
      ReverseAppend(Reverse(s[1..]), [s[0]]);
      ReverseReverse(s[1..]);
    }
  }

  lemma {:induction false} ReverseAppend(a: seq<byte>, b: seq<byte>)
    ensures Reverse(a + b) == Reverse(b) + Reverse(a)
  {
    if |a| == 0 {
      assert a + b == b;
    } else {
      assert (a + b)[1..] == a[1..] + b;
      ReverseAppend(a[1..], b);
    }
  }

  /** Decoding in the same order inverts encoding, modulo the width. */
  lemma RoundTrip(order: ByteOrder, v: int, n: nat)
    ensures Decode(order, Encode(order, v, n)) == v % Pow256(n)
  {
    LeRoundTrip(v, n);
    if order == BigEndian {
      ReverseReverse(LeBytes(v, n));
    }
  }

  /** Every byte sequence is the encoding of its decoded value. */
  lemma EncodeOfDecode(order: ByteOrder, s: seq<byte>)
    ensures Encode(order, Decode(order, s), |s|) == s
  {
    if order == LittleEndian {
      LeBytesOfValue(s);
    } else {
      LeBytesOfValue(Reverse(s));
      ReverseReverse(s);
    }
  }

  /** A signed value lies in the n-byte two's-complement range. */
  lemma SignedRange(u: nat, n: nat)
    requires n >= 1 && u < Pow256(n)
    ensures -(Pow256(n) / 2) <= ToSigned(u, n) < Pow256(n) / 2
  {
    assert Pow256(n) == 256 * Pow256(n - 1);
  }
}
