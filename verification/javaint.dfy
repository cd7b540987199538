/**
 * Java integer semantics the store relies on: fixed-width two's-complement
 * values, the big-endian byte layout of java.io.DataOutput/DataInput, and the
 * bitwise `&` and `^` the hashtable and the key codec use.
 */
module JavaInt {

  /** One byte of a file, as an unsigned octet. */
  type byte = b: int | 0 <= b < 256

  function Pow256(n: nat): (r: nat)
    ensures r >= 1
  {
    if n == 0 then 1 else 256 * Pow256(n - 1)
  }

  function Pow2(n: nat): (r: nat)
    ensures r >= 1
  {
    if n == 0 then 1 else 2 * Pow2(n - 1)
  }

  /** The range of a Java value `n` bytes wide (byte 1, int 4, long 8). */
  predicate Fits(v: int, n: nat)
  {
    n > 0 && -(Pow256(n) / 2) <= v < Pow256(n) / 2
  }

  predicate IsInt(v: int) { Fits(v, 4) }
  predicate IsLong(v: int) { Fits(v, 8) }

  const MAX_INT: int := 0x7fff_ffff
  const MAX_LONG: int := 0x7fff_ffff_ffff_ffff

  lemma {:induction false} Pow256Values()
    ensures Pow256(1) == 0x100 && Pow256(4) == 0x1_0000_0000
    ensures Pow256(8) == 0x1_0000_0000_0000_0000
  {
    assert Pow256(2) == 0x1_0000;
    assert Pow256(3) == 0x100_0000;
    assert Pow256(4) == 0x1_0000_0000;
    assert Pow256(5) == 0x100_0000_0000;
    assert Pow256(6) == 0x1_0000_0000_0000;
    assert Pow256(7) == 0x100_0000_0000_0000;
  }

  /** A value between two longs is a long. */
  lemma LongBetween(a: int, x: int, b: int)
    requires IsLong(a) && IsLong(b) && a <= x <= b
    ensures IsLong(x)
  {
  }

  /** Truncation of a mathematical integer to `n` bytes, as a narrowing cast or an overflowing addition does. */
  function Wrap(v: int, n: nat): (r: int)
    requires n > 0
    ensures Fits(r, n)
    ensures r % Pow256(n) == v % Pow256(n)
    ensures Fits(v, n) ==> r == v
  {
    var p := Pow256(n);
    var u := v % p;
    var r := if u >= p / 2 then u - p else u;
    WrapArith(v, Pow256(n - 1), r);
    r
  }

  /** The arithmetic of Wrap for a width of 256 * k values. */
  lemma WrapArith(v: int, k: nat, r: int)
    requires k >= 1
    requires var u := v % (256 * k); r == if u >= 128 * k then u - 256 * k else u
    ensures -(128 * k) <= r < 128 * k
    ensures r % (256 * k) == v % (256 * k)
    ensures -(128 * k) <= v < 128 * k ==> r == v
  {
    var p := 256 * k;
    var u := v % p;
    if u >= 128 * k {
      ModUnique(r, p, -1, u);
    } else {
      ModUnique(r, p, 0, u);
    }
    if -(128 * k) <= v < 128 * k {
      if v >= 0 { ModUnique(v, p, 0, v); } else { ModUnique(v, p, -1, v + p); }
    }
  }

  /** The quotient and remainder of Euclidean division are unique. */
  lemma ModUnique(a: int, m: int, q: int, r: int)
    requires m > 0 && 0 <= r < m && a == q * m + r
    ensures a / m == q && a % m == r
  {
    var q0, r0 := a / m, a % m;
    assert (q - q0) * m == r0 - r;
    if q > q0 {
      MulAtLeast(q - q0, m);
    } else if q < q0 {
      MulAtLeast(q0 - q, m);
    }
  }

  lemma MulAtLeast(x: int, m: int)
    requires x >= 1 && m > 0
    ensures x * m >= m
  {
    assert (x - 1) * m >= 0;
  }

  // ---------------------------------------------------------------------
  // Big-endian layout of unsigned values

  function EncodeUnsigned(u: nat, n: nat): (bs: seq<byte>)
    ensures |bs| == n
  {
    if n == 0 then [] else EncodeUnsigned(u / 256, n - 1) + [u % 256]
  }

  function DecodeUnsigned(bs: seq<byte>): nat
  {
    if |bs| == 0 then 0 else DecodeUnsigned(bs[..|bs| - 1]) * 256 + bs[|bs| - 1]
  }

  lemma {:induction false} DecodeUnsignedBound(bs: seq<byte>)
    ensures DecodeUnsigned(bs) < Pow256(|bs|)
  {
    if |bs| > 0 {
      var init := bs[..|bs| - 1];
      DecodeUnsignedBound(init);
      assert DecodeUnsigned(init) + 1 <= Pow256(|init|);
      calc {
        DecodeUnsigned(bs);
        DecodeUnsigned(init) * 256 + bs[|bs| - 1];
        < DecodeUnsigned(init) * 256 + 256;
        == (DecodeUnsigned(init) + 1) * 256;
        <= Pow256(|init|) * 256;
      }
    }
  }

  lemma {:induction false} DecodeEncodeUnsigned(u: nat, n: nat)
    requires u < Pow256(n)
    ensures DecodeUnsigned(EncodeUnsigned(u, n)) == u
  {
    if n > 0 {
      var bs := EncodeUnsigned(u, n);
      var q, r := u / 256, u % 256;
      assert bs == EncodeUnsigned(q, n - 1) + [r];
      assert bs[..n - 1] == EncodeUnsigned(q, n - 1);
      assert q < Pow256(n - 1);
      DecodeEncodeUnsigned(q, n - 1);
      assert DecodeUnsigned(bs) == q * 256 + r;
    }
  }

  lemma {:induction false} EncodeDecodeUnsigned(bs: seq<byte>)
    ensures EncodeUnsigned(DecodeUnsigned(bs), |bs|) == bs
  {
    if |bs| > 0 {
      var init := bs[..|bs| - 1];
      var u := DecodeUnsigned(bs);
      assert u / 256 == DecodeUnsigned(init);
      assert u % 256 == bs[|bs| - 1];
      EncodeDecodeUnsigned(init);
      assert init + [bs[|bs| - 1]] == bs;
    }
  }

  // ---------------------------------------------------------------------
  // Two's-complement values as DataOutput writes them and DataInput reads them

  /** The `n` bytes `writeByte` (n = 1), `writeInt` (4) or `writeLong` (8) emit for `v`; higher bits are dropped. */
  function Encode(v: int, n: nat): (bs: seq<byte>)
    ensures |bs| == n
  {
    EncodeUnsigned(v % Pow256(n), n)
  }

  /** The signed value `readByte`, `readInt` or `readLong` returns for `bs`. */
  function Decode(bs: seq<byte>): int
  {
    var u := DecodeUnsigned(bs);
    if |bs| > 0 && u >= Pow256(|bs|) / 2 then u - Pow256(|bs|) else u
  }

  /** Reading back what was written restores every value of the written width. */
  lemma DecodeEncode(v: int, n: nat)
    requires Fits(v, n)
    ensures Decode(Encode(v, n)) == v
  {
    DecodeEncodeWraps(v, n);
  }

  /** For values out of range, what is read back is the written value truncated to its width. */
  lemma DecodeEncodeWraps(v: int, n: nat)
    requires n > 0
    ensures Decode(Encode(v, n)) == Wrap(v, n)
  {
    var p := Pow256(n);
    var u := v % p;
    DecodeEncodeUnsigned(u, n);
    assert DecodeUnsigned(Encode(v, n)) == u;
  }

  /** Every byte string is the encoding of what it decodes to. */
  lemma EncodeDecode(bs: seq<byte>)
    requires |bs| > 0
    ensures Fits(Decode(bs), |bs|)
    ensures Encode(Decode(bs), |bs|) == bs
  {
    var p: int := Pow256(|bs|);
    DecodeUnsignedBound(bs);
    var u: int := DecodeUnsigned(bs);
    var d := Decode(bs);
    if u >= p / 2 {
      assert d == u - p;
      ModUnique(d, p, -1, u);
    } else {
      assert d == u;
      ModUnique(d, p, 0, u);
    }
    assert Encode(d, |bs|) == EncodeUnsigned(u, |bs|);
    EncodeDecodeUnsigned(bs);
  }

  // ---------------------------------------------------------------------
  // Bitwise operators on non-negative integers

  function And(a: nat, b: nat): nat
  {
    if a == 0 || b == 0 then 0 else 2 * And(a / 2, b / 2) + (if a % 2 == 1 && b % 2 == 1 then 1 else 0)
  }

  function Xor(a: nat, b: nat): nat
  {
    if a == 0 then b
    else if b == 0 then a
    else 2 * Xor(a / 2, b / 2) + (if a % 2 != b % 2 then 1 else 0)
  }

  /** A mask never lets through more than itself. */
  lemma {:induction false} AndBound(a: nat, b: nat)
    ensures And(a, b) <= b
  {
    if a != 0 && b != 0 {
      AndBound(a / 2, b / 2);
    }
  }

  /** Masking with 2^k - 1 keeps the low k bits: the remainder modulo 2^k. */
  lemma {:induction false} AndLowBits(a: nat, k: nat)
    ensures And(a, Pow2(k) - 1) == a % Pow2(k)
  {
    var p := Pow2(k);
    var m := p - 1;
    if k == 0 {
      assert m == 0;
      ModUnique(a, 1, a, 0);
    } else if a == 0 {
      ModUnique(0, p, 0, 0);
    } else {
      var h := Pow2(k - 1);
      assert p == 2 * h;
      assert m / 2 == h - 1 && m % 2 == 1;
      AndOdd(a, m);
      AndLowBits(a / 2, k - 1);
      DivModPow2(a, k);
    }
  }

  /** One step of `&` against an odd mask: the low bit of `a` passes. */
  lemma AndOdd(a: nat, m: nat)
    requires a > 0 && m % 2 == 1
    ensures And(a, m) == 2 * And(a / 2, m / 2) + a % 2
  {
  }

  lemma DivModPow2(a: nat, k: nat)
    requires k > 0
    ensures a % Pow2(k) == 2 * ((a / 2) % Pow2(k - 1)) + a % 2
  {
    var p := Pow2(k - 1);
    var q := (a / 2) / p;
    var r := (a / 2) % p;
    assert a / 2 == q * p + r;
    assert a == q * (2 * p) + (2 * r + a % 2);
    assert 0 <= 2 * r + a % 2 < 2 * p;
    ModUnique(a, 2 * p, q, 2 * r + a % 2);
  }

  /** Xor-ing a byte into a value whose low eight bits are clear is addition. */
  lemma {:induction false} XorLowByte(k: nat, v: nat)
    requires v < 256
    ensures Xor(256 * k, v) == 256 * k + v
  {
    XorShifted(k, v, 8);
  }

  lemma {:induction false} XorShifted(k: nat, v: nat, bits: nat)
    requires v < Pow2(bits)
    ensures Xor(Pow2(bits) * k, v) == Pow2(bits) * k + v
    decreases bits
  {
    var a := Pow2(bits) * k;
    if a == 0 || v == 0 {
    } else {
      assert bits > 0;
      var p := Pow2(bits - 1);
      assert a == 2 * (p * k);
      assert a / 2 == p * k && a % 2 == 0;
      XorShifted(k, v / 2, bits - 1);
      assert Xor(a, v) == 2 * Xor(p * k, v / 2) + v % 2;
    }
  }
}
