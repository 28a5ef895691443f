/**
 * Bytes, 64-bit integers and big-endian fields, as java.nio.ByteBuffer and
 * java.math.BigInteger lay them out.
 *
 * A Java `byte` is stored here as its bit pattern, the unsigned value
 * `b & 0xFF`; wherever Java widens a byte or a field with sign extension the
 * model says so with `Signed`.
 */
module Bytes {

  /** One byte, as its unsigned bit pattern 0..255. */
  type Byte = x: int | 0 <= x < 256

  /** A Java `long`. */
  type Int64 = x: int | -0x8000_0000_0000_0000 <= x < 0x8000_0000_0000_0000

  function Pow256(n: nat): (r: int)
    ensures r > 0
  {
    if n == 0 then 1 else 256 * Pow256(n - 1)
  }

  /**
   * The n-byte big-endian field holding `x`: the low 8n bits of x's two's
   * complement, most significant byte first (ByteBuffer.putLong for n = 8,
   * putShort of a `(short)` cast for n = 2).
   */
  function ToBigEndian(x: int, n: nat): (r: seq<Byte>)
    ensures |r| == n
    decreases n
  {
    if n == 0 then [] else ToBigEndian(x / 256, n - 1) + [x % 256]
  }

  /** The unsigned value of a big-endian byte string. */
  function FromBigEndian(s: seq<Byte>): (r: nat)
    ensures r < Pow256(|s|)
  {
    if s == [] then 0 else FromBigEndian(s[..|s| - 1]) * 256 + s[|s| - 1]
  }

  /**
   * The two's complement reading of an n-byte unsigned value u: what
   * ByteBuffer.getLong / getShort and `new BigInteger(byte[])` produce.
   */
  function Signed(u: int, n: nat): (r: int)
    requires 0 <= u < Pow256(n)
    ensures n > 0 ==> -Pow256(n) / 2 <= r < Pow256(n) / 2
  {
    if n > 0 && u >= Pow256(n) / 2 then u - Pow256(n) else u
  }

  /** The signed reading is congruent to the unsigned one modulo 256^n. */
  lemma SignedMod(u: int, n: nat)
    requires 0 <= u < Pow256(n)
    ensures Signed(u, n) % Pow256(n) == u
  {
    if n > 0 && u >= Pow256(n) / 2 {
      ModUnique(u - Pow256(n), Pow256(n), -1, u);
    } else {
      ModUnique(u, Pow256(n), 0, u);
    }
  }

  // ---------------------------------------------------------------------
  // Division facts

  /** Division with a positive divisor has exactly one quotient and remainder. */
  lemma ModUnique(x: int, d: int, q: int, r: int)
    requires d > 0 && x == d * q + r && 0 <= r < d
    ensures x / d == q && x % d == r
  {
    var q', r' := x / d, x % d;
    assert d * (q - q') == r' - r by {
      assert d * q + r == d * q' + r';
    }
    if q > q' {
      MulAtLeast(d, q - q');
    } else if q < q' {
      MulAtLeast(d, q' - q);
    }
  }

  lemma {:induction false} MulAtLeast(d: int, k: int)
    requires d > 0 && k > 0
    ensures d * k >= d
    decreases k
  {
    if k > 1 {
      MulAtLeast(d, k - 1);
      assert d * k == d * (k - 1) + d;
    }
  }

  lemma DivDiv(x: int, a: int, b: int)
    requires a > 0 && b > 0
    ensures x / a / b == x / (a * b)
  {
    var q, r := x / a, x % a;
    var q2, r2 := q / b, q % b;
    assert x == a * q + r;
    assert q == b * q2 + r2;
    Regroup(a, b, q2, r2);
    assert x == (a * b) * q2 + (a * r2 + r);
    MulBelow(a, r2, b);
    ModUnique(x, a * b, q2, a * r2 + r);
  }

  lemma Regroup(a: int, b: int, q: int, r: int)
    ensures a * (b * q + r) == (a * b) * q + a * r
  {
  }

  /** 0 <= a * r <= a * b - a when 0 <= r < b. */
  lemma MulBelow(a: int, r: int, b: int)
    requires a > 0 && 0 <= r < b
    ensures 0 <= a * r <= a * b - a
  {
    assert a * r <= a * (b - 1);
  }

  /** Splitting off the last byte: x mod 256^(n+1) from x/256 mod 256^n and x mod 256. */
  lemma ModSplit(x: int, p: int)
    requires p > 0
    ensures (x / 256 % p) * 256 + x % 256 == x % (256 * p)
  {
    var q, r := x / 256, x % 256;
    var k, m := q / p, q % p;
    assert x == 256 * (p * k + m) + r;
    assert x == (256 * p) * k + (256 * m + r);
    assert 256 * m <= 256 * (p - 1);
    ModUnique(x, 256 * p, k, 256 * m + r);
  }

  // ---------------------------------------------------------------------
  // Big-endian fields

  /** Byte i of an n-byte big-endian field is x shifted right by 8(n-1-i) bits, masked to 8 bits. */
  lemma {:induction false} ToBigEndianAt(x: int, n: nat, i: nat)
    requires i < n
    ensures ToBigEndian(x, n)[i] == x / Pow256(n - 1 - i) % 256
    decreases n
  {
    if i == n - 1 {
      assert Pow256(0) == 1;
    } else {
      ToBigEndianAt(x / 256, n - 1, i);
      DivDiv(x, 256, Pow256(n - 2 - i));
      assert Pow256(n - 1 - i) == 256 * Pow256(n - 2 - i);
    }
  }

  /** Reading a field back gives the value modulo 256^n: only the low 8n bits survive. */
  lemma {:induction false} FromToBigEndian(x: int, n: nat)
    ensures FromBigEndian(ToBigEndian(x, n)) == x % Pow256(n)
    decreases n
  {
    if n > 0 {
      var s := ToBigEndian(x, n);
      assert s[..n - 1] == ToBigEndian(x / 256, n - 1);
      FromToBigEndian(x / 256, n - 1);
      ModSplit(x, Pow256(n - 1));
    }
  }

  /** Writing the value of a byte string gives the byte string back. */
  lemma {:induction false} ToFromBigEndian(s: seq<Byte>)
    ensures ToBigEndian(FromBigEndian(s), |s|) == s
  {
    if s != [] {
      var n := |s|;
      var v := FromBigEndian(s);
      ModUnique(v, 256, FromBigEndian(s[..n - 1]), s[n - 1]);
      ToFromBigEndian(s[..n - 1]);
      assert s == s[..n - 1] + [s[n - 1]];
    }
  }

  /** Big-endian encoding is injective on byte strings of one length. */
  lemma FromBigEndianInjective(s: seq<Byte>, t: seq<Byte>)
    requires |s| == |t| && FromBigEndian(s) == FromBigEndian(t)
    ensures s == t
  {
    ToFromBigEndian(s);
    ToFromBigEndian(t);
  }

  /** Concatenated fields: the value of a + b is a's value shifted past b's bytes, plus b's. */
  lemma {:induction false} FromBigEndianAppend(a: seq<Byte>, b: seq<Byte>)
    ensures FromBigEndian(a + b) == FromBigEndian(a) * Pow256(|b|) + FromBigEndian(b)
    decreases |b|
  {
    if b == [] {
      assert a + b == a;
    } else {
      var n := |b|;
      var init := b[..n - 1];
      assert (a + b)[..|a + b| - 1] == a + init;
      FromBigEndianAppend(a, init);
      var va, vi, p, last := FromBigEndian(a), FromBigEndian(init), Pow256(n - 1), b[n - 1];
      assert FromBigEndian(a + b) == FromBigEndian(a + init) * 256 + last;
      assert FromBigEndian(a + init) == va * p + vi;
      assert FromBigEndian(b) == vi * 256 + last;
      assert Pow256(n) == 256 * p;
      ShiftByte(va, p, vi);
    }
  }

  lemma ShiftByte(va: int, p: int, vi: int)
    ensures (va * p + vi) * 256 == va * (256 * p) + vi * 256
  {
  }

  /** The trailing m bytes of an (n+m)-byte field are the m-byte field of x. */
  lemma {:induction false} ToBigEndianSuffix(x: int, n: nat, m: nat)
    ensures ToBigEndian(x, n + m)[n..] == ToBigEndian(x, m)
    decreases m
  {
    if m > 0 {
      ToBigEndianSuffix(x / 256, n, m - 1);
      assert ToBigEndian(x, n + m)[n..] == ToBigEndian(x / 256, n + m - 1)[n..] + [x % 256];
    }
  }

  /** A field only depends on x modulo 256^n. */
  lemma ToBigEndianMod(x: int, n: nat)
    ensures ToBigEndian(x, n) == ToBigEndian(x % Pow256(n), n)
  {
    FromToBigEndian(x, n);
    ToFromBigEndian(ToBigEndian(x, n));
  }

  /** The leading n bytes of an (n+m)-byte field are the n-byte field of x shifted right by 8m bits. */
  lemma {:induction false} ToBigEndianPrefix(x: int, n: nat, m: nat)
    ensures ToBigEndian(x, n + m)[..n] == ToBigEndian(x / Pow256(m), n)
    decreases m
  {
    if m == 0 {
      assert x / 1 == x;
    } else {
      ToBigEndianPrefix(x / 256, n, m - 1);
      DivDiv(x, 256, Pow256(m - 1));
      assert ToBigEndian(x, n + m)[..n] == ToBigEndian(x / 256, n + m - 1)[..n];
    }
  }

  /** A field read as a signed value and written back gives the same bytes. */
  lemma SignedFieldRoundTrip(b: seq<Byte>)
    ensures ToBigEndian(Signed(FromBigEndian(b), |b|), |b|) == b
  {
    ToBigEndianMod(Signed(FromBigEndian(b), |b|), |b|);
    SignedMod(FromBigEndian(b), |b|);
    ToFromBigEndian(b);
  }

  /** A value in the signed range of n bytes survives the round trip through its field. */
  lemma SignedOfField(x: int, n: nat)
    requires n > 0 && -Pow256(n) / 2 <= x < Pow256(n) / 2
    ensures Signed(FromBigEndian(ToBigEndian(x, n)), n) == x
  {
    FromToBigEndian(x, n);
    var p := Pow256(n);
    if x >= 0 {
      ModUnique(x, p, 0, x);
    } else {
      ModUnique(x, p, -1, x + p);
    }
  }

  /** A value in the unsigned range of n bytes survives the round trip through its field. */
  lemma UnsignedOfField(x: int, n: nat)
    requires 0 <= x < Pow256(n)
    ensures FromBigEndian(ToBigEndian(x, n)) == x
  {
    FromToBigEndian(x, n);
    ModUnique(x, Pow256(n), 0, x);
  }
}
