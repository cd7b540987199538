/**
 * The benchmark's key codec: a long key becomes a 4-byte array holding its
 * low 32 bits big-endian, and a byte array's first four bytes are read back
 * as a non-negative long.
 */
module KeyCodec {
  import opened JavaInt
  import opened Wrappers

  /** A Java `byte`: signed, -128 to 127. */
  type JavaByte = v: int | -128 <= v < 128

  const TWO_32: int := 0x1_0000_0000

  /** The octets a Java byte array holds, each read as `b & 0xFF`. */
  function Unsigned(s: seq<JavaByte>): (u: seq<byte>)
    ensures |u| == |s|
    ensures forall k :: 0 <= k < |s| ==> u[k] == (s[k] as int) % 256
  {
    seq(|s|, k requires 0 <= k < |s| => (s[k] as int) % 256)
  }

  /** Floor division by a product is division by one factor after the other. */
  lemma DivDiv(a: int, b: int, c: int)
    requires b > 0 && c > 0
    ensures a / b / c == a / (b * c)
  {
    var q1, r1 := a / b, a % b;
    var q2, r2 := q1 / c, q1 % c;
    assert a == q1 * b + r1;
    assert q1 == q2 * c + r2;
    Regroup(q2, c, r2, b, r1);
    RemainderBelow(r2, c, r1, b);
    ModUnique(a, b * c, q2, r2 * b + r1);
  }

  lemma Regroup(q: int, c: int, r: int, b: int, s: int)
    ensures (q * c + r) * b + s == q * (b * c) + (r * b + s)
  {
  }

  lemma RemainderBelow(r2: int, c: int, r1: int, b: int)
    requires 0 <= r2 < c && 0 <= r1 < b
    ensures 0 <= r2 * b + r1 < b * c
  {
    assert r2 * b <= (c - 1) * b;
  }

  /** Byte `n - 1 - i` of the big-endian encoding holds bits 8i to 8i + 7. */
  lemma {:induction false} EncodeUnsignedDigit(u: nat, n: nat, i: nat)
    requires i < n
    ensures EncodeUnsigned(u, n)[n - 1 - i] == (u / Pow256(i)) % 256
  {
    if i > 0 {
      assert EncodeUnsigned(u, n)[n - 1 - i] == EncodeUnsigned(u / 256, n - 1)[n - 2 - (i - 1)];
      EncodeUnsignedDigit(u / 256, n - 1, i - 1);
      DivDiv(u, 256, Pow256(i - 1));
    }
  }

  /** Below bit 32, a value and its remainder modulo 2^32 have the same bits. */
  lemma LowBitsAgree(l: int, i: nat)
    requires i < 4
    ensures ((l % TWO_32) / Pow256(i)) % 256 == (l / Pow256(i)) % 256
  {
    Pow256Values();
    var p := Pow256(i);
    var k := Pow256(3 - i);
    assert p * k * 256 == TWO_32 by {
      if i == 0 { } else if i == 1 { assert Pow256(2) == 0x1_0000; }
      else if i == 2 { assert Pow256(2) == 0x1_0000; } else { assert Pow256(3) == 0x100_0000; }
    }
    var u := l % TWO_32;
    var q := l / TWO_32;
    assert l == q * TWO_32 + u;
    assert q * TWO_32 == (q * k * 256) * p;
    DivOfSum(l, p, q * k * 256, u);
    ModOfSum(l / p, q * k, u / p);
  }

  /** Dividing a multiple of `p` plus a non-negative rest. */
  lemma DivOfSum(l: int, p: int, a: int, u: int)
    requires p > 0 && u >= 0 && l == a * p + u
    ensures l / p == a + u / p
  {
    assert u == (u / p) * p + u % p;
    assert l == (a + u / p) * p + u % p;
    ModUnique(l, p, a + u / p, u % p);
  }

  /** A multiple of 256 does not change the low byte. */
  lemma ModOfSum(y: int, b: int, x: int)
    requires x >= 0 && y == b * 256 + x
    ensures y % 256 == x % 256
  {
    ModUnique(y, 256, b + x / 256, x % 256);
  }

  /**
   * toByteArray: writes b[3 - i] := (byte) (l >>> 8i) for i = 0 .. 3. For
   * i < 4 the bits the cast keeps are the same in the logical shift of the
   * 64-bit value and in the floor quotient l / 256^i, which is what is
   * computed here.
   */
  method ToByteArray(l: int) returns (b: array<JavaByte>)
    ensures fresh(b) && b.Length == 4
    ensures Unsigned(b[..]) == Encode(l, 4)
  {
    b := new JavaByte[4](_ => 0);
    var i := 0;
    while i < 4
      invariant 0 <= i <= 4
      invariant forall k :: 4 - i <= k < 4 ==> (b[k] as int) % 256 == Encode(l, 4)[k]
    {
      Pow256Values();
      b[3 - i] := Wrap(l / Pow256(i), 1);
      EncodeUnsignedDigit(l % TWO_32, 4, i);
      LowBitsAgree(l, i);
      i := i + 1;
    }
    assert Unsigned(b[..]) == Encode(l, 4);
  }

  /**
   * toLong: for i = 0 .. 3, shifts the accumulator left by eight bits and
   * xors in the unsigned value of b[i]. An array shorter than four bytes
   * fails on the first missing index.
   */
  method ToLong(b: array<JavaByte>) returns (r: Result<int>)
    ensures b.Length < 4 ==> r == Err(IndexOutOfBounds)
    ensures b.Length >= 4 ==> r == Ok(DecodeUnsigned(Unsigned(b[..4])))
  {
    var l: nat := 0;
    var i := 0;
    while i < 4
      invariant 0 <= i <= 4
      invariant i <= b.Length && l == DecodeUnsigned(Unsigned(b[..i]))
    {
      if i >= b.Length {
        return Err(IndexOutOfBounds);
      }
      var v := (b[i] as int) % 256;
      assert Unsigned(b[..i + 1])[..i] == Unsigned(b[..i]);
      XorLowByte(l, v);
      l := Xor(l * 256, v);
      i := i + 1;
    }
    r := Ok(l);
  }

  /** What toLong returns is a non-negative value below 2^32. */
  lemma ToLongRange(bs: seq<JavaByte>)
    requires |bs| >= 4
    ensures 0 <= DecodeUnsigned(Unsigned(bs[..4])) < TWO_32
  {
    DecodeUnsignedBound(Unsigned(bs[..4]));
    Pow256Values();
  }

  /** toLong reads only the first four bytes: whatever follows them does not change the result. */
  lemma ToLongIgnoresTail(bs: seq<JavaByte>, tail: seq<JavaByte>)
    requires |bs| >= 4
    ensures Unsigned((bs + tail)[..4]) == Unsigned(bs[..4])
  {
    assert (bs + tail)[..4] == bs[..4];
  }

  /** toLong(toByteArray(l)) is l & 0xFFFFFFFF: the low 32 bits of the key, as a non-negative value. */
  method KeyRoundTrip(l: int) returns (r: int)
    ensures r == l % TWO_32
    ensures 0 <= r < TWO_32
  {
    var b := ToByteArray(l);
    var x := ToLong(b);
    assert b[..4] == b[..];
    Pow256Values();
    DecodeEncodeUnsigned(l % TWO_32, 4);
    r := x.value;
  }
}
