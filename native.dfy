/**
  The single-word routines of MFMathLib that use the C `/` and `%` operators
  directly instead of the byte-buffer algorithms: mfMultiplyU8, mfDivideU8,
  mfDivideU16 and mfDivideU32.  They read their operands through the nested
  `l8`/`h8`, `l16`/`h16` members, which are the little-endian bytes of the
  number, so operands and results are byte sequences here.
*/
module Native {
  import opened WideValue

  /** The outcome of a divide routine: -1 for a zero divisor, else 0 with the bytes written to q and r. */
  datatype Division = DivisionByZero | Divided(q: seq<byte>, r: seq<byte>)

  /** mfMultiplyU8: the 16-bit product of two bytes, as its low byte d and high byte o. */
  function MultiplyU8(a: byte, b: byte): (r: (byte, byte))
    ensures r.0 + 256 * r.1 == a * b
  {
    var x: int := (a as int) * (b as int);
    ByteProductBound(a, b);
    (x % 256, x / 256)
  }

  lemma {:induction false} ByteProductBound(a: byte, b: byte)
    ensures (a as int) * (b as int) < 0x1_0000
  {
    MulMonotone(a, 255, b);
    MulMonotone(b, 255, 255);
  }

  /** C's unsigned `n / d`. */
  function Quotient(n: nat, d: nat): (q: nat)
    requires d > 0
    ensures q <= n && q * d <= n < q * d + d
  {
    QuotientBounds(n, d);
    n / d
  }

  /** C's unsigned `n % d`: what is left of n after taking Quotient(n, d) copies of d. */
  function Remainder(n: nat, d: nat): (r: nat)
    requires d > 0
    ensures r < d && r <= n && Quotient(n, d) * d + r == n
  {
    QuotientBounds(n, d);
    n % d
  }

  // ---------------------------------------------------------------------------
  // mfDivideU8

  /** mfDivideU8 as written: the quotient is right, but the "remainder" is n - q. */
  function DivideU8AsWritten(n: byte, d: byte): (res: Division)
    ensures res.DivisionByZero? <==> d == 0
    ensures res.Divided? ==> |res.q| == 1 && |res.r| == 1 &&
                             (res.q[0] as int) * d <= n < (res.q[0] as int + 1) * d && res.r[0] + res.q[0] as int == n
  {
    if d == 0 then DivisionByZero
    else
      QuotientBounds(n, d);
      var q: byte := n / d;
      Divided([q], [n - q])
  }

  /** Dividing 7 by 2 yields quotient 3 and remainder 4, and 3 * 2 + 4 is not 7. */
  lemma {:induction false} DivideU8Wrong()
    ensures DivideU8AsWritten(7, 2) == Divided([3], [4])
    ensures 3 * 2 + 4 != 7
  {
  }

  /** mfDivideU8 with the remainder the documented one: n = q * d + r, r < d. */
  function DivideU8(n: byte, d: byte): (res: Division)
    ensures res.DivisionByZero? <==> d == 0
    ensures res.Divided? ==> |res.q| == 1 && |res.r| == 1 && n == res.q[0] * d + res.r[0] && res.r[0] < d
  {
    if d == 0 then DivisionByZero
    else
      QuotientBounds(n, d);
      Divided([n / d], [n % d])
  }

  // ---------------------------------------------------------------------------
  // mfDivideU16

  /** `(h8 << 8) + l8` of a 16-bit union. */
  function Word16(b: seq<byte>): (v: nat)
    requires |b| == 2
    ensures v == Value(b)
  {
    assert Value(b) == b[0] + 256 * Value(b[1..]);
    assert Value(b[1..]) == b[1] + 256 * Value(b[2..]);
    (b[1] as int) * 0x100 + b[0]
  }

  lemma {:induction false} Word16Bound(b: seq<byte>)
    requires |b| == 2
    ensures Word16(b) < 0x1_0000
    ensures Word16(b) == 0 <==> b[0] == 0 && b[1] == 0
  {
  }

  /** Split a 16-bit value back into `l8` (`& 0xFF`) and `h8` (`>> 8`). */
  function Bytes16(v: nat): (b: seq<byte>)
    requires v < 0x1_0000
    ensures |b| == 2 && Value(b) == v
  {
    var b: seq<byte> := [v % 256, v / 256];
    assert Value(b) == b[0] + 256 * Value(b[1..]);
    assert Value(b[1..]) == b[1] + 256 * Value(b[2..]);
    b
  }

  /** mfDivideU16 as written: r16 = n16 - q16. */
  function DivideU16AsWritten(n: seq<byte>, d: seq<byte>): (res: Division)
    requires |n| == 2 && |d| == 2
    ensures res.DivisionByZero? <==> Value(d) == 0
    ensures res.Divided? ==> Value(res.q) == Value(n) / Value(d) && Value(res.r) == Value(n) - Value(res.q)
  {
    OrZero(d[0], d[1]);
    Word16Bound(d);
    if Or(d[0], d[1]) == 0 then DivisionByZero
    else
      var n16 := Word16(n);
      var d16 := Word16(d);
      Word16Bound(n);
      var q16 := Quotient(n16, d16);
      Divided(Bytes16(q16), Bytes16(n16 - q16))
  }

  /** Dividing 7 by 2 yields quotient 3 and remainder 4 here as well. */
  lemma {:induction false} DivideU16Wrong()
    ensures DivideU16AsWritten([7, 0], [2, 0]) == Divided([3, 0], [4, 0])
    ensures 3 * 2 + 4 != 7
  {
    assert Word16([7, 0]) == 7 && Word16([2, 0]) == 2;
    assert Bytes16(3) == [3, 0] && Bytes16(4) == [4, 0];
    assert Or(2, 0) == 2;
  }

  /** mfDivideU16 with r16 = n16 % d16: n = q * d + r, r < d. */
  function DivideU16(n: seq<byte>, d: seq<byte>): (res: Division)
    requires |n| == 2 && |d| == 2
    ensures res.DivisionByZero? <==> Value(d) == 0
    ensures res.Divided? ==> |res.q| == 2 && |res.r| == 2 &&
                             Value(n) == Value(res.q) * Value(d) + Value(res.r) && Value(res.r) < Value(d)
  {
    OrZero(d[0], d[1]);
    Word16Bound(d);
    if Or(d[0], d[1]) == 0 then DivisionByZero
    else
      var n16 := Word16(n);
      var d16 := Word16(d);
      Word16Bound(n);
      Divided(Bytes16(Quotient(n16, d16)), Bytes16(Remainder(n16, d16)))
  }

  // ---------------------------------------------------------------------------
  // mfDivideU32

  /** `(h16.h8 << 24) | (h16.l8 << 16) | (l16.h8 << 8) | l16.l8` of a 32-bit union. */
  function Word32(b: seq<byte>): nat
    requires |b| == 4
  {
    Or(Or(Or((b[3] as int) * 0x100_0000, (b[2] as int) * 0x1_0000), (b[1] as int) * 0x100), b[0])
  }

  /** The four shifted bytes do not overlap, so the ORs add up to the little-endian value. */
  lemma {:induction false} Word32Value(b: seq<byte>)
    requires |b| == 4
    ensures Word32(b) == Value(b)
  {
    Pow2Small();
    var x := (b[3] as int) * 0x100_0000;
    var y := (b[2] as int) * 0x1_0000;
    var z := (b[1] as int) * 0x100;
    var o1 := Or(x, y);
    OrDisjoint(b[3], y, 24, 0x100_0000);
    var h2 := (b[3] as int) * 0x100 + b[2];
    assert o1 == h2 * 0x1_0000;
    var o2 := Or(o1, z);
    OrDisjoint(h2, z, 16, 0x1_0000);
    var h1 := h2 * 0x100 + b[1];
    assert o2 == h1 * 0x100;
    var o3 := Or(o2, b[0]);
    OrDisjoint(h1, b[0], 8, 0x100);
    assert Word32(b) == o3 == h1 * 0x100 + b[0];
    ValueFour(b);
  }

  lemma {:induction false} Word32Bound(b: seq<byte>)
    requires |b| == 4
    ensures Value(b) < 0x1_0000_0000
  {
    ValueBound(b);
    assert Pow256(4) == 0x1_0000_0000;
  }

  /** `(v >> 8k) & 0xFF` for k = 0 .. 3. */
  function Bytes32(v: nat): (b: seq<byte>)
    requires v < 0x1_0000_0000
    ensures |b| == 4 && Value(b) == v
  {
    ToBytesLimb(v);
    assert Pow256(4) == 0x1_0000_0000;
    ToBytesValue(v, 4);
    [v % 256, (v / 0x100) % 256, (v / 0x1_0000) % 256, (v / 0x100_0000) % 256]
  }

  /** mfDivideU32: n = q * d + r with r < d; -1 when the divisor is 0. */
  function DivideU32(n: seq<byte>, d: seq<byte>): (res: Division)
    requires |n| == 4 && |d| == 4
    ensures res.DivisionByZero? <==> Value(d) == 0
    ensures res.Divided? ==> |res.q| == 4 && |res.r| == 4 &&
                             Value(n) == Value(res.q) * Value(d) + Value(res.r) && Value(res.r) < Value(d)
  {
    Word32Value(d);
    var d32 := Word32(d);
    if d32 == 0 then DivisionByZero
    else
      Word32Value(n);
      Word32Bound(n);
      var n32 := Word32(n);
      Divided(Bytes32(Quotient(n32, d32)), Bytes32(Remainder(n32, d32)))
  }
}
