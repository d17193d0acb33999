/**
  The numeric meaning of the byte buffers that MFMathLib works on.

  A width-N unsigned integer (N = 8 * bytes) is a little-endian buffer of
  `unsigned char`: byte 0 is the least significant one (the `l8` member of the
  nested unions in mfmathlib.h, byte `bytes - 1` its `h8`).  `Value` gives the
  number such a buffer stands for.  C bit operations on single bytes are written
  here as arithmetic on 0..255; bitwise OR is the function `Or`.
*/
module WideValue {

  /** An `unsigned char`. */
  type byte = x: int | 0 <= x < 256

  /** A byte known to hold 0 or 1 (the `bits[]` arrays of the licensing code). */
  type bit = x: int | 0 <= x < 2

  function Pow2(k: nat): (r: nat)
    ensures r >= 1
  {
    if k == 0 then 1 else 2 * Pow2(k - 1)
  }

  function Pow256(i: nat): (r: nat)
    ensures r >= 1
  {
    if i == 0 then 1 else 256 * Pow256(i - 1)
  }

  /** The unsigned number a little-endian byte sequence stands for. */
  function Value(s: seq<byte>): nat
  {
    if |s| == 0 then 0 else s[0] + 256 * Value(s[1..])
  }

  /** The canonical `n`-byte little-endian encoding of `v mod 256^n`. */
  function ToBytes(v: nat, n: nat): (s: seq<byte>)
    ensures |s| == n
  {
    if n == 0 then [] else [v % 256] + ToBytes(v / 256, n - 1)
  }

  function Zeros(n: nat): (s: seq<byte>)
    ensures |s| == n
    ensures forall i :: 0 <= i < n ==> s[i] == 0
  {
    seq(n, _ => 0)
  }

  /** Bitwise OR of two naturals, bit by bit from the least significant one. */
  function Or(a: nat, b: nat): nat
    decreases a + b
  {
    if a == 0 then b
    else if b == 0 then a
    else 2 * Or(a / 2, b / 2) + (if a % 2 == 1 || b % 2 == 1 then 1 else 0)
  }

  // ---------------------------------------------------------------------------
  // Powers

  lemma {:induction false} Pow2Add(a: nat, b: nat)
    ensures Pow2(a + b) == Pow2(a) * Pow2(b)
  {
    if a > 0 {
      Pow2Add(a - 1, b);
      assert Pow2(a + b) == 2 * Pow2(a - 1 + b);
    }
  }

  lemma {:induction false} Pow2Monotone(a: nat, b: nat)
    requires a <= b
    ensures Pow2(a) <= Pow2(b)
  {
    if a < b {
      Pow2Monotone(a, b - 1);
    }
  }

  lemma {:induction false} Pow256IsPow2(i: nat)
    ensures Pow256(i) == Pow2(8 * i)
  {
    if i > 0 {
      Pow256IsPow2(i - 1);
      Pow2Add(8, 8 * (i - 1));
      assert 8 * i == 8 + 8 * (i - 1);
    }
  }

  lemma {:induction false} Pow256Add(a: nat, b: nat)
    ensures Pow256(a + b) == Pow256(a) * Pow256(b)
  {
    if a > 0 {
      Pow256Add(a - 1, b);
      assert Pow256(a + b) == 256 * Pow256(a - 1 + b);
    }
  }

  lemma {:induction false} Pow256Monotone(a: nat, b: nat)
    requires a <= b
    ensures Pow256(a) <= Pow256(b)
  {
    if a < b {
      Pow256Monotone(a, b - 1);
    }
  }

  lemma {:induction false} Pow2Small()
    ensures Pow2(8) == 0x100 && Pow2(16) == 0x1_0000 && Pow2(24) == 0x100_0000
  {
    assert Pow2(8) == 0x100;
    Pow2Add(8, 8);
    Pow2Add(16, 8);
  }

  /** 2^256: one past the largest mfU256. */
  const Modulus256: nat := 0x1_0000_0000_0000_0000_0000_0000_0000_0000_0000_0000_0000_0000_0000_0000_0000_0000

  lemma {:induction false} Modulus256Power()
    ensures Modulus256 == Pow2(256) && Modulus256 == Pow256(32)
  {
    assert Pow2(2) == 4;
    Pow2Add(2, 2);
    assert Pow2(4) == 0x10;
    Pow2Add(4, 4);
    assert Pow2(8) == 0x100;
    Pow2Add(8, 8);
    assert Pow2(16) == 0x1_0000;
    Pow2Add(16, 16);
    assert Pow2(32) == 0x1_0000_0000;
    Pow2Add(32, 32);
    assert Pow2(64) == 0x1_0000_0000_0000_0000;
    Pow2Add(64, 64);
    assert Pow2(128) == 0x1_0000_0000_0000_0000_0000_0000_0000_0000;
    Pow2Add(128, 128);
    Pow256IsPow2(32);
  }

  // ---------------------------------------------------------------------------
  // Division facts used throughout

  /** Quotient and remainder are determined by the division identity. */
  lemma {:induction false} DivModUnique(a: int, b: int, q: int, r: int)
    requires b > 0 && 0 <= r < b && a == q * b + r
    ensures q == a / b && r == a % b
  {
    var q', r' := a / b, a % b;
    assert a == q' * b + r';
    assert (q - q') * b == r' - r;
    MulSign(q - q', b);
  }

  /** A multiple of a positive number strictly inside (-b, b) is 0. */
  lemma {:induction false} MulSign(k: int, b: int)
    requires b > 0 && -b < k * b < b
    ensures k == 0
  {
    if k >= 1 {
      MulMonotone(1, k, b);
    } else if k <= -1 {
      MulMonotone(1, -k, b);
    }
  }

  lemma {:induction false} MulMonotone(a: int, b: int, c: int)
    requires a <= b && c >= 0
    ensures a * c <= b * c
  {
  }

  lemma {:induction false} MulAssoc(x: int, y: int, z: int)
    ensures x * (y * z) == (x * y) * z
  {
  }

  lemma {:induction false} Distrib(x: int, y: int, z: int)
    ensures x * (y + z) == x * y + x * z
  {
  }

  /** DivDiv with the product of the divisors named. */
  lemma {:induction false} DivDivBy(a: nat, b: nat, c: nat, bc: nat)
    requires b > 0 && c > 0 && bc == b * c
    ensures a / b / c == a / bc && a / bc >= 0
  {
    DivDiv(a, b, c);
  }

  lemma {:induction false} DivDiv(a: nat, b: nat, c: nat)
    requires b > 0 && c > 0
    ensures a / b / c == a / (b * c)
  {
    var m := a / b;
    var q := m / c;
    QuotientBounds(a, b);
    QuotientBounds(m, c);
    var s, t := m % c, a % b;
    NestedDigits(a, b, c, m, q, s, t);
    DivModUnique(a, b * c, q, s * b + t);
  }

  /** a = m * b + t with m = q * c + s: then a = q * (b * c) + (s * b + t), the last part below b * c. */
  lemma {:induction false} NestedDigits(a: int, b: int, c: int, m: int, q: int, s: int, t: int)
    requires b > 0 && c > 0 && 0 <= t < b && 0 <= s < c
    requires a == m * b + t && m == q * c + s
    ensures a == q * (b * c) + (s * b + t) && 0 <= s * b + t < b * c
  {
    Distrib(b, q * c, s);
    MulAssoc(q, c, b);
    MulMonotone(s, c - 1, b);
    Distrib(b, c - 1, 1);
  }

  /** Euclidean division of naturals: the quotient brackets the dividend. */
  lemma {:induction false} QuotientBounds(n: nat, d: nat)
    requires d > 0
    ensures n == (n / d) * d + n % d && n % d < d && n / d <= n
    ensures (n / d) * d <= n < (n / d + 1) * d
  {
    Distrib(d, n / d, 1);
    MulMonotone(1, d, n / d);
  }

  /** The quotient of `low + P * high` by P, for a digit `low` below P. */
  lemma {:induction false} HighDigit(x: nat, low: nat, high: nat, P: nat)
    requires low < P && x == low + P * high
    ensures x / P == high && x % P == low
  {
    MulDivCancel(high, low, P);
  }

  lemma {:induction false} MulDivCancel(a: nat, b: nat, c: nat)
    requires c > 0 && b < c
    ensures (a * c + b) / c == a && (a * c + b) % c == b
  {
    DivModUnique(a * c + b, c, a, b);
  }

  // ---------------------------------------------------------------------------
  // Value

  lemma {:induction false} ValueBound(s: seq<byte>)
    ensures Value(s) < Pow256(|s|)
  {
    if |s| > 0 {
      ValueBound(s[1..]);
      assert Value(s) <= 255 + 256 * (Pow256(|s| - 1) - 1);
    }
  }

  lemma {:induction false} ValueConcat(a: seq<byte>, b: seq<byte>)
    ensures Value(a + b) == Value(a) + Pow256(|a|) * Value(b)
  {
    if |a| > 0 {
      assert (a + b)[1..] == a[1..] + b;
      ValueConcat(a[1..], b);
      assert Value(a + b) == a[0] + 256 * Value(a[1..] + b);
      ConcatArith(a[0], Value(a[1..]), Pow256(|a| - 1), Value(b));
    } else {
      assert a + b == b;
    }
  }

  lemma {:induction false} ConcatAssoc(x: seq<byte>, y: seq<byte>, z: seq<byte>)
    ensures x + (y + z) == (x + y) + z
  {
  }

  lemma {:induction false} ConcatArith(x: int, A: int, P: int, V: int)
    ensures x + 256 * (A + P * V) == (x + 256 * A) + (256 * P) * V
  {
    Distrib(256, A, P * V);
    MulAssoc(256, P, V);
  }

  /** Splitting a buffer at byte `i` splits its value. */
  lemma {:induction false} ValueSplit(s: seq<byte>, i: nat)
    requires i <= |s|
    ensures Value(s) == Value(s[..i]) + Pow256(i) * Value(s[i..])
  {
    assert s == s[..i] + s[i..];
    ValueConcat(s[..i], s[i..]);
  }

  lemma {:induction false} ValuePrefix(s: seq<byte>, i: nat)
    requires i < |s|
    ensures Value(s[..i + 1]) == Value(s[..i]) + s[i] * Pow256(i)
  {
    assert s[..i + 1] == s[..i] + [s[i]];
    ValueAppend(s[..i], s[i]);
  }

  /** Appending a byte adds it at the weight of the new top position. */
  lemma {:induction false} ValueAppend(s: seq<byte>, b: byte)
    ensures Value(s + [b]) == Value(s) + b * Pow256(|s|)
  {
    ValueConcat(s, [b]);
    ValueSingle(b);
    SwapFactor(Pow256(|s|), Value([b]), b);
  }

  lemma {:induction false} ValueSingle(b: byte)
    ensures Value([b]) == b
  {
    assert [b][1..] == [];
  }

  lemma {:induction false} SwapFactor(P: int, V: int, b: int)
    requires V == b
    ensures P * V == b * P
  {
  }

  /** Writing one byte changes the value by the difference at that byte's weight. */
  lemma {:induction false} ValueUpdate(s: seq<byte>, i: nat, v: byte)
    requires i < |s|
    ensures Value(s[i := v]) == Value(s) + (v - s[i]) * Pow256(i)
  {
    var t := s[i := v];
    ValueSplit(s, i);
    ValueSplit(t, i);
    assert t[..i] == s[..i];
    assert t[i + 1..] == s[i + 1..];
    assert s[i..][1..] == s[i + 1..] && t[i..][1..] == t[i + 1..];
    assert Value(s[i..]) == s[i] + 256 * Value(s[i + 1..]);
    assert Value(t[i..]) == v + 256 * Value(s[i + 1..]);
    UpdateArith(Value(s[..i]), Pow256(i), s[i], v, Value(s[i + 1..]));
  }

  lemma {:induction false} UpdateArith(low: int, P: int, a: int, b: int, R: int)
    ensures low + P * (b + 256 * R) == low + P * (a + 256 * R) + (b - a) * P
  {
    Distrib(P, a, 256 * R);
    Distrib(P, b, 256 * R);
    assert P * (b - a) == P * b - P * a;
  }

  lemma {:induction false} ValueZeros(n: nat)
    ensures Value(Zeros(n)) == 0
  {
    if n > 0 {
      assert Zeros(n)[1..] == Zeros(n - 1);
      ValueZeros(n - 1);
    }
  }

  /** Zero bytes on top do not change the value. */
  lemma {:induction false} ValueZeroExtend(s: seq<byte>, n: nat)
    ensures Value(s + Zeros(n)) == Value(s)
  {
    ValueConcat(s, Zeros(n));
    ValueZeros(n);
    var P := Pow256(|s|);
    assert P * Value(Zeros(n)) == 0;
  }

  /** A buffer stands for 0 exactly when each of its bytes is 0. */
  lemma {:induction false} ValueZeroIff(s: seq<byte>)
    ensures Value(s) == 0 <==> forall i :: 0 <= i < |s| ==> s[i] == 0
  {
    if |s| > 0 {
      ValueZeroIff(s[1..]);
      if Value(s) == 0 {
        forall i | 0 <= i < |s| ensures s[i] == 0 {
          if i > 0 { assert s[i] == s[1..][i - 1]; }
        }
      }
      if forall i :: 0 <= i < |s| ==> s[i] == 0 {
        assert forall i :: 0 <= i < |s[1..]| ==> s[1..][i] == 0 by {
          forall i | 0 <= i < |s[1..]| ensures s[1..][i] == 0 {
            assert s[1..][i] == s[i + 1];
          }
        }
      }
    }
  }

  /** The value of a four-byte buffer. */
  lemma {:induction false} ValueFour(b: seq<byte>)
    requires |b| == 4
    ensures Value(b) == b[0] as int + 0x100 * (b[1] as int) + 0x1_0000 * (b[2] as int) + 0x100_0000 * (b[3] as int)
  {
    assert Value(b[3..]) == b[3] + 256 * Value(b[4..]);
    assert Value(b[2..]) == b[2] + 256 * Value(b[3..]);
    assert Value(b[1..]) == b[1] + 256 * Value(b[2..]);
    assert Value(b) == b[0] + 256 * Value(b[1..]);
  }

  lemma {:induction false} ValueLowByte(s: seq<byte>)
    requires |s| > 0
    ensures Value(s) % 256 == s[0] && Value(s) / 256 == Value(s[1..])
    ensures Value(s) % 2 == s[0] % 2
  {
    LowByteArith(Value(s), Value(s[1..]), s[0]);
  }

  lemma {:induction false} LowByteArith(x: nat, V: nat, b: byte)
    requires x == b + 256 * V
    ensures x % 256 == b && x / 256 == V && x % 2 == b % 2
  {
    MulDivCancel(V, b, 256);
    var h := b / 2 + 128 * V;
    assert x == h * 2 + b % 2;
    MulDivCancel(h, b % 2, 2);
  }

  /** A value below 256 sits entirely in byte 0. */
  lemma {:induction false} ValueSmall(s: seq<byte>)
    requires |s| > 0 && Value(s) < 256
    ensures s[0] == Value(s)
  {
    assert Value(s[1..]) == 0;
  }

  /** The top byte is zero when the value fits in one byte fewer. */
  lemma {:induction false} ValueTopZero(s: seq<byte>)
    requires |s| > 0 && Value(s) < Pow256(|s| - 1)
    ensures s[|s| - 1] == 0
  {
    var n := |s|;
    ValueSplit(s, n - 1);
    assert s[n - 1..] == [s[n - 1]];
    assert Value(s[n - 1..]) == s[n - 1] + 256 * Value([]);
    MulMonotone(0, Value(s[n - 1..]), Pow256(n - 1));
    assert Pow256(n - 1) * s[n - 1] < Pow256(n - 1);
    MulSign(s[n - 1], Pow256(n - 1));
  }

  lemma {:induction false} Pow2TopBit(n: nat)
    requires n > 0
    ensures Pow2(8 * n - 1) == 128 * Pow256(n - 1)
  {
    Pow256IsPow2(n - 1);
    Pow2Add(7, 8 * (n - 1));
    assert 8 * n - 1 == 7 + 8 * (n - 1);
  }

  /** The top bit of a buffer is bit 7 of its top byte. */
  lemma {:induction false} ValueTopBit(s: seq<byte>)
    requires |s| > 0
    ensures s[|s| - 1] < 128 <==> Value(s) < Pow2(8 * |s| - 1)
  {
    var n := |s|;
    ValueSplit(s, n - 1);
    assert s[n - 1..] == [s[n - 1]];
    assert Value(s[n - 1..]) == s[n - 1] + 256 * Value([]);
    ValueBound(s[..n - 1]);
    Pow2TopBit(n);
    TopBitSplit(Value(s[..n - 1]), s[n - 1], Pow256(n - 1));
  }

  lemma {:induction false} TopBitSplit(low: nat, top: nat, P: nat)
    requires low < P
    ensures top < 128 <==> low + P * top < 128 * P
  {
    if top < 128 {
      MulMonotone(top, 127, P);
    } else {
      MulMonotone(128, top, P);
    }
  }

  /** Buffers of one length with one value are the same buffer. */
  lemma {:induction false} ValueInjective(a: seq<byte>, b: seq<byte>)
    requires |a| == |b| && Value(a) == Value(b)
    ensures a == b
  {
    if |a| > 0 {
      ValueLowByte(a);
      ValueLowByte(b);
      ValueInjective(a[1..], b[1..]);
      assert a == [a[0]] + a[1..];
      assert b == [b[0]] + b[1..];
    }
  }

  lemma {:induction false} ToBytesValue(v: nat, n: nat)
    requires v < Pow256(n)
    ensures Value(ToBytes(v, n)) == v
  {
    if n > 0 {
      var q := v / 256;
      QuotientBelow(v, Pow256(n - 1));
      ToBytesValue(q, n - 1);
      var t := ToBytes(v, n);
      assert t[1..] == ToBytes(q, n - 1);
      assert Value(t) == v % 256 + 256 * Value(ToBytes(q, n - 1));
    }
  }

  /** Dropping the low byte of a number below `256 * P` leaves a number below `P`. */
  lemma {:induction false} QuotientBelow(v: nat, P: nat)
    requires v < 256 * P
    ensures v / 256 < P && v == v % 256 + 256 * (v / 256)
  {
    QuotientBounds(v, 256);
  }

  /** Splitting off the low byte of a remainder modulo `256 * P`. */
  lemma {:induction false} ModSplit(v: nat, P: nat)
    requires P > 0
    ensures v % (256 * P) == v % 256 + 256 * ((v / 256) % P)
  {
    var q := v / 256 / P;
    var r := v % 256 + 256 * ((v / 256) % P);
    assert v / 256 == q * P + (v / 256) % P;
    assert v == 256 * (v / 256) + v % 256;
    assert v == q * (256 * P) + r;
    assert r <= 255 + 256 * (P - 1);
    DivModUnique(v, 256 * P, q, r);
  }

  /** The encoding keeps the value modulo 256^n. */
  lemma {:induction false} ToBytesMod(v: nat, n: nat)
    ensures Value(ToBytes(v, n)) == v % Pow256(n)
  {
    if n > 0 {
      ToBytesMod(v / 256, n - 1);
      assert ToBytes(v, n)[1..] == ToBytes(v / 256, n - 1);
      ModSplit(v, Pow256(n - 1));
    }
  }

  /** The four bytes of a 32-bit value, as `(s >> 8k) & 0xFF`. */
  lemma {:induction false} ToBytesLimb(v: nat)
    ensures ToBytes(v, 4) == [v % 256, (v / 0x100) % 256, (v / 0x1_0000) % 256, (v / 0x100_0000) % 256]
  {
    DivDiv(v, 256, 256);
    DivDiv(v, 0x1_0000, 256);
    assert ToBytes(v, 4) == [v % 256] + ToBytes(v / 256, 3);
    assert ToBytes(v / 256, 3) == [(v / 256) % 256] + ToBytes(v / 256 / 256, 2);
    assert ToBytes(v / 0x1_0000, 2) == [(v / 0x1_0000) % 256] + ToBytes(v / 0x1_0000 / 256, 1);
    assert ToBytes(v / 0x100_0000, 1) == [(v / 0x100_0000) % 256] + ToBytes(v / 0x100_0000 / 256, 0);
  }

  /** A shorter encoding is a prefix of a longer one. */
  lemma {:induction false} ToBytesPrefix(v: nat, m: nat, n: nat)
    requires m <= n
    ensures ToBytes(v, n)[..m] == ToBytes(v, m)
  {
    if m > 0 {
      ToBytesPrefix(v / 256, m - 1, n - 1);
      assert ToBytes(v, n)[..m] == [v % 256] + ToBytes(v / 256, n - 1)[..m - 1];
    }
  }

  /** One digit of a carry chain: the digit and the carry together weigh `u`. */
  lemma {:induction false} CarryStep(u: nat, P: nat)
    ensures (u % 256) * P + (u / 256) * (256 * P) == u * P
  {
    MulAssoc(u / 256, 256, P);
    Distrib(P, u % 256, (u / 256) * 256);
    assert u == u % 256 + (u / 256) * 256;
  }

  // ---------------------------------------------------------------------------
  // Bitwise OR

  lemma {:induction false} OrZero(a: nat, b: nat)
    ensures Or(a, b) == 0 <==> a == 0 && b == 0
    decreases a + b
  {
    if a != 0 && b != 0 && a % 2 == 0 && b % 2 == 0 {
      OrZero(a / 2, b / 2);
    }
  }

  lemma {:induction false} OrBound(a: nat, b: nat, k: nat)
    requires a < Pow2(k) && b < Pow2(k)
    ensures Or(a, b) < Pow2(k)
    decreases a + b
  {
    if a != 0 && b != 0 {
      assert k > 0;
      OrBound(a / 2, b / 2, k - 1);
    }
  }

  /** The recursion of `Or` also holds when an operand is 0. */
  lemma {:induction false} OrStep(a: nat, b: nat)
    ensures Or(a, b) == 2 * Or(a / 2, b / 2) + (if a % 2 == 1 || b % 2 == 1 then 1 else 0)
  {
    if a == 0 {
      assert Or(a / 2, b / 2) == b / 2;
    } else if b == 0 {
      assert Or(a / 2, b / 2) == a / 2;
    }
  }

  /** OR acts independently on the low `k` bits and on the bits above them. */
  /** The number with digit `low` below `P` and the number `high` above it. */
  function Join(low: nat, high: nat, P: nat): nat
  {
    low + high * P
  }

  lemma {:induction false} OrDigits(aLow: nat, aHigh: nat, bLow: nat, bHigh: nat, k: nat, P: nat)
    requires P == Pow2(k) && aLow < P && bLow < P
    ensures Or(Join(aLow, aHigh, P), Join(bLow, bHigh, P)) == Join(Or(aLow, bLow), Or(aHigh, bHigh), P)
  {
    if k > 0 {
      var Q := Pow2(k - 1);
      OrDigits(aLow / 2, aHigh, bLow / 2, bHigh, k - 1, Q);
      OrDigitsStep(aLow, aHigh, bLow, bHigh, Q, P);
    } else {
      assert aLow == 0 && bLow == 0 && P == 1;
      assert Join(aLow, aHigh, P) == aHigh && Join(bLow, bHigh, P) == bHigh;
      assert Or(aLow, bLow) == 0;
    }
  }

  /** One bit of OrDigits: the low bit, and the rest by the induction hypothesis. */
  lemma {:induction false} OrDigitsStep(aLow: nat, aHigh: nat, bLow: nat, bHigh: nat, Q: nat, P: nat)
    requires Q >= 1 && P == 2 * Q && aLow < P && bLow < P
    requires Or(Join(aLow / 2, aHigh, Q), Join(bLow / 2, bHigh, Q)) == Join(Or(aLow / 2, bLow / 2), Or(aHigh, bHigh), Q)
    ensures Or(Join(aLow, aHigh, P), Join(bLow, bHigh, P)) == Join(Or(aLow, bLow), Or(aHigh, bHigh), P)
  {
    var a, b := Join(aLow, aHigh, P), Join(bLow, bHigh, P);
    HalveDigits(a, aLow, aHigh, Q, P);
    HalveDigits(b, bLow, bHigh, Q, P);
    var y := Or(aLow / 2, bLow / 2);
    var H := Or(aHigh, bHigh);
    assert Or(a / 2, b / 2) == y + H * Q;
    var bit := if a % 2 == 1 || b % 2 == 1 then 1 else 0;
    OrStep(a, b);
    OrStep(aLow, bLow);
    HalfRegroup(Or(a, b), Or(a / 2, b / 2), Or(aLow, bLow), y, Q, P, H, bit);
  }

  /** Halving `low + high * P` for an even P halves the low digit and keeps its parity. */
  lemma {:induction false} HalveDigits(x: nat, low: nat, high: nat, Q: nat, P: nat)
    requires Q >= 1 && P == 2 * Q && low < P && x == Join(low, high, P)
    ensures low / 2 < Q && x / 2 == Join(low / 2, high, Q) && x % 2 == low % 2
  {
    assert x == (low / 2 + high * Q) * 2 + low % 2;
    MulDivCancel(low / 2 + high * Q, low % 2, 2);
  }

  lemma {:induction false} HalfRegroup(o: int, half: int, low: int, y: int, Q: int, P: int, H: int, bit: int)
    requires P == 2 * Q && half == y + H * Q && o == 2 * half + bit && low == 2 * y + bit
    ensures o == low + H * P
  {
  }

  lemma {:induction false} OrByte(a: byte, b: byte)
    ensures Or(a, b) < 256
  {
    assert Pow2(8) == 256;
    OrBound(a, b, 8);
  }

  /** OR-ing in bit `p` of a number whose bit `p` is clear adds 2^p. */
  lemma {:induction false} OrDisjointBit(x: nat, p: nat)
    requires (x / Pow2(p)) % 2 == 0
    ensures Or(x, Pow2(p)) == x + Pow2(p)
    decreases p
  {
    if x != 0 {
      if p == 0 {
        assert x % 2 == 0;
        assert Or(x, 1) == 2 * Or(x / 2, 0) + 1;
      } else {
        DivDiv(x, 2, Pow2(p - 1));
        OrDisjointBit(x / 2, p - 1);
        assert Pow2(p) / 2 == Pow2(p - 1) && Pow2(p) % 2 == 0;
        assert Or(x, Pow2(p)) == 2 * Or(x / 2, Pow2(p - 1)) + (if x % 2 == 1 then 1 else 0);
      }
    }
  }

  /** OR with 0 or 1 into an even number adds that bit. */
  lemma {:induction false} OrLowBit(x: nat, b: bit)
    requires x % 2 == 0
    ensures Or(x, b) == x + b
  {
    if b == 1 {
      OrDisjointBit(x, 0);
    }
  }

  /** OR of a multiple of 2^k with a number below 2^k is their sum (disjoint bits). */
  lemma {:induction false} OrDisjoint(h: nat, b: nat, k: nat, P: nat)
    requires P == Pow2(k) && b < P
    ensures Or(h * P, b) == h * P + b
  {
    OrDigits(0, h, b, 0, k, P);
    assert Join(0, h, P) == h * P && Join(b, 0, P) == b;
    assert Or(0, b) == b && Or(h, 0) == h;
  }
}
