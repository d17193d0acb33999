/**
  mfDivideUX: restoring binary long division of two `bytes`-byte numbers.

  The divisor is copied into `shifted_quotient` and shifted left, together
  with a one-bit mask `bit`, until its top bit is set.  Then, from that
  position down to bit 0, the shifted divisor is subtracted from the running
  remainder `left_over` whenever it fits, and the mask is ORed into the
  quotient.
*/
module Divide {
  import opened WideValue
  import opened BufferOps

  // ---------------------------------------------------------------------------
  // Arithmetic facts used by the two loops

  /** A number below half the range can be doubled without wrapping. */
  lemma {:induction false} DoubleFits(v: nat, bytes: nat)
    requires bytes >= 1 && v < Pow2(8 * bytes - 1)
    ensures (2 * v) % Pow256(bytes) == 2 * v
  {
    Pow256IsPow2(bytes);
    assert Pow2(8 * bytes) == 2 * Pow2(8 * bytes - 1);
    MulDivCancel(0, 2 * v, Pow256(bytes));
  }

  /** Once the top bit is set, the shifted divisor is more than half the range. */
  lemma {:induction false} HalfRange(v: nat, bytes: nat)
    requires bytes >= 1 && v >= Pow2(8 * bytes - 1)
    ensures Pow256(bytes) <= 2 * v
  {
    Pow256IsPow2(bytes);
    assert Pow2(8 * bytes) == 2 * Pow2(8 * bytes - 1);
  }

  lemma {:induction false} TwiceMul(D: nat, j: nat)
    ensures D * Pow2(j + 1) == 2 * (D * Pow2(j))
  {
    MulAssoc(D, 2, Pow2(j));
  }

  /** Halving the shifted divisor and the mask moves them down one bit. */
  lemma {:induction false} HalfStep(D: nat, j: nat)
    requires j >= 1
    ensures (D * Pow2(j)) / 2 == D * Pow2(j - 1) && Pow2(j) / 2 == Pow2(j - 1)
  {
    TwiceMul(D, j - 1);
  }

  /** A multiple of 2^(j+1) has bit j clear and is a multiple of 2^j. */
  lemma {:induction false} MultipleBit(x: nat, j: nat)
    requires x % Pow2(j + 1) == 0
    ensures (x / Pow2(j)) % 2 == 0 && x % Pow2(j) == 0
  {
    var P := Pow2(j);
    var m := x / Pow2(j + 1);
    assert x == m * Pow2(j + 1);
    MulAssoc(m, 2, P);
    assert x == (2 * m) * P + 0;
    MulDivCancel(2 * m, 0, P);
  }

  /** Setting bit j of a multiple of 2^(j+1) leaves a multiple of 2^j. */
  lemma {:induction false} SetBitMultiple(x: nat, j: nat)
    requires x % Pow2(j + 1) == 0
    ensures (x + Pow2(j)) % Pow2(j) == 0
  {
    var P := Pow2(j);
    MultipleBit(x, j);
    var m := x / P;
    assert x + P == (m + 1) * P + 0;
    MulDivCancel(m + 1, 0, P);
  }

  /** The divisor does not fit at bit j: nothing changes but the bit position. */
  lemma {:induction false} RestoreKeep(L: nat, Q: nat, D: nat, N: nat, j: nat)
    requires Restoring(L, Q, D, N, j + 1) && L < D * Pow2(j)
    ensures Restoring(L, Q, D, N, j)
  {
    MultipleBit(Q, j);
  }

  /** The divisor fits at bit j: subtracting d * 2^j and setting quotient bit j keeps the state. */
  lemma {:induction false} RestoreTake(L: nat, Q: nat, D: nat, N: nat, j: nat)
    requires Restoring(L, Q, D, N, j + 1) && L >= D * Pow2(j)
    ensures Restoring(L - D * Pow2(j), Q + Pow2(j), D, N, j)
  {
    var P := Pow2(j);
    TwiceMul(D, j);
    SetBitMultiple(Q, j);
    RestoreArith(L, Q, D, P, N);
  }

  lemma {:induction false} RestoreArith(lo: int, q: int, D: int, P: int, N: int)
    requires lo + q * D == N
    ensures (lo - D * P) + (q + P) * D == N
  {
    Distrib(D, q, P);
  }

  // ---------------------------------------------------------------------------
  // The routine

  /**
    The state of the restoring loop with e bits still to go: the remainder and
    the quotient account for the dividend, the remainder is below d * 2^e, and
    the quotient's low e bits are still clear.
  */
  ghost predicate Restoring(L: nat, Q: nat, D: nat, N: nat, e: nat)
  {
    L + Q * D == N && L < D * Pow2(e) && Q % Pow2(e) == 0
  }

  /** The first loop of mfDivideUX: shift divisor and mask left until the divisor's top bit is set. */
  method AlignDivisor(sq: array<byte>, bit: array<byte>, bytes: nat, ghost D: nat) returns (ghost k: nat)
    requires bytes >= 1 && sq.Length == bytes && bit.Length == bytes && sq != bit
    requires Value(sq[..]) == D && D >= 1 && Value(bit[..]) == 1
    modifies sq, bit
    ensures Value(sq[..]) == D * Pow2(k) && Value(bit[..]) == Pow2(k)
    ensures Pow256(bytes) <= 2 * Value(sq[..])
  {
    k := 0;
    while sq[bytes - 1] < 128
      invariant Value(sq[..]) == D * Pow2(k) && Value(bit[..]) == Pow2(k) && Value(sq[..]) >= 1
      decreases Pow256(bytes) - Value(sq[..])
    {
      DoubleShifted(sq, bit, bytes, D, k);
      k := k + 1;
    }
    ValueTopBit(sq[..]);
    HalfRange(Value(sq[..]), bytes);
  }

  /** One pass of the first loop: the top bit is clear, so both shift left without losing a bit. */
  method DoubleShifted(sq: array<byte>, bit: array<byte>, bytes: nat, ghost D: nat, ghost k: nat)
    requires bytes >= 1 && sq.Length == bytes && bit.Length == bytes && sq != bit
    requires Value(sq[..]) == D * Pow2(k) && Value(bit[..]) == Pow2(k) && D >= 1 && sq[bytes - 1] < 128
    modifies sq, bit
    ensures Value(sq[..]) == D * Pow2(k + 1) && Value(bit[..]) == Pow2(k + 1)
    ensures old(Value(sq[..])) < Value(sq[..]) < Pow256(bytes)
  {
    ghost var S, B := Value(sq[..]), Value(bit[..]);
    ValueBound(sq[..]);
    ValueTopBit(sq[..]);
    MulMonotone(1, D, Pow2(k));
    DoubleFits(S, bytes);
    DoubleFits(B, bytes);
    TwiceMul(D, k);
    assert sq[..] == sq[..bytes] && bit[..] == bit[..bytes];
    ShiftLeftXBy1(sq, bytes);
    ShiftLeftXBy1(bit, bytes);
    assert sq[..] == sq[..bytes] && bit[..] == bit[..bytes];
    assert Pow2(k + 1) == 2 * Pow2(k);
    ValueBound(sq[..]);
  }

  /** One pass of the second loop of mfDivideUX, at mask bit j. */
  method RestoreStep(lo: array<byte>, sq: array<byte>, bit: array<byte>, q: array<byte>, bytes: nat,
                     ghost D: nat, ghost N: nat, ghost j: nat)
    requires bytes >= 1 && lo.Length == bytes && sq.Length == bytes && bit.Length == bytes && bytes <= q.Length
    requires lo != sq && lo != bit && lo != q && sq != bit && sq != q && bit != q
    requires Value(bit[..]) == Pow2(j) && Value(sq[..]) == D * Pow2(j)
    requires Restoring(Value(lo[..]), Value(q[..bytes]), D, N, j + 1)
    modifies lo, sq, bit, q
    ensures Restoring(Value(lo[..]), Value(q[..bytes]), D, N, j)
    ensures j >= 1 ==> Value(bit[..]) == Pow2(j - 1) && Value(sq[..]) == D * Pow2(j - 1)
    ensures j == 0 ==> Value(bit[..]) == 0
    ensures q[bytes..] == old(q[bytes..])
  {
    var c := CompareUX(lo, sq, bytes);
    assert lo[..] == lo[..bytes] && sq[..] == sq[..bytes];
    if c != Smaller {
      SubtractShifted(lo, sq, bit, q, bytes, D, N, j);
    } else {
      RestoreKeep(Value(lo[..]), Value(q[..bytes]), D, N, j);
    }
    HalveShifted(sq, bit, bytes, D, j);
  }

  /** The divisor fits: subtract it from the remainder and OR the mask into the quotient. */
  method SubtractShifted(lo: array<byte>, sq: array<byte>, bit: array<byte>, q: array<byte>, bytes: nat,
                         ghost D: nat, ghost N: nat, ghost j: nat)
    requires bytes >= 1 && lo.Length == bytes && sq.Length == bytes && bit.Length == bytes && bytes <= q.Length
    requires lo != sq && lo != bit && lo != q && q != sq && q != bit
    requires Value(bit[..]) == Pow2(j) && Value(sq[..]) == D * Pow2(j) && Value(lo[..]) >= Value(sq[..])
    requires Restoring(Value(lo[..]), Value(q[..bytes]), D, N, j + 1)
    modifies lo, q
    ensures Restoring(Value(lo[..]), Value(q[..bytes]), D, N, j)
    ensures q[bytes..] == old(q[bytes..])
  {
    assert lo[..] == lo[..bytes] && sq[..] == sq[..bytes] && bit[..] == bit[..bytes];
    ghost var L, S, Q := Value(lo[..]), Value(sq[..]), Value(q[..bytes]);
    MultipleBit(Q, j);
    ValueBound(lo[..]);
    var _ := SubtractUX(lo, sq, lo, bytes);
    assert lo[..] == lo[..bytes];
    MulDivCancel(0, L - S, Pow256(bytes));
    assert Value(lo[..]) == L - S;
    OrX(q, bit, q, bytes);
    OrDisjointBit(Q, j);
    RestoreTake(L, Q, D, N, j);
  }

  /** Shift the divisor and the mask right by one bit. */
  method HalveShifted(sq: array<byte>, bit: array<byte>, bytes: nat, ghost D: nat, ghost j: nat)
    requires bytes >= 1 && sq.Length == bytes && bit.Length == bytes && sq != bit
    requires Value(bit[..]) == Pow2(j) && Value(sq[..]) == D * Pow2(j)
    modifies sq, bit
    ensures j >= 1 ==> Value(bit[..]) == Pow2(j - 1) && Value(sq[..]) == D * Pow2(j - 1)
    ensures j == 0 ==> Value(bit[..]) == 0
  {
    if j >= 1 {
      HalfStep(D, j);
    }
    assert sq[..] == sq[..bytes] && bit[..] == bit[..bytes];
    ShiftRightXBy1(sq, bytes);
    ShiftRightXBy1(bit, bytes);
    assert sq[..] == sq[..bytes] && bit[..] == bit[..bytes];
  }

  /** The second loop of mfDivideUX: one restoring step per mask bit, from bit k down to bit 0. */
  method RestoreQuotient(lo: array<byte>, sq: array<byte>, bit: array<byte>, q: array<byte>, bytes: nat,
                         ghost D: nat, ghost N: nat, ghost k: nat)
    requires bytes >= 1 && lo.Length == bytes && sq.Length == bytes && bit.Length == bytes && bytes <= q.Length
    requires lo != sq && lo != bit && lo != q && sq != bit && sq != q && bit != q
    requires Value(bit[..]) == Pow2(k) && Value(sq[..]) == D * Pow2(k)
    requires Restoring(Value(lo[..]), Value(q[..bytes]), D, N, k + 1)
    modifies lo, sq, bit, q
    ensures Restoring(Value(lo[..]), Value(q[..bytes]), D, N, 0)
    ensures q[bytes..] == old(q[bytes..])
  {
    ghost var j: int := k;
    var bz := IsZeroX(bit, bytes);
    assert bit[..] == bit[..bytes];
    while bz == 0
      invariant -1 <= j <= k
      invariant j >= 0 ==> Value(bit[..]) == Pow2(j) && Value(sq[..]) == D * Pow2(j)
      invariant j == -1 ==> Value(bit[..]) == 0
      invariant bz == 0 <==> j >= 0
      invariant Restoring(Value(lo[..]), Value(q[..bytes]), D, N, j + 1)
      invariant q[bytes..] == old(q[bytes..])
      decreases j + 1
    {
      RestoreStep(lo, sq, bit, q, bytes, D, N, j);
      j := j - 1;
      bz := IsZeroX(bit, bytes);
      assert bit[..] == bit[..bytes];
    }
  }

  /**
    mfDivideUX.  Division by zero (including the empty width, whose value is
    zero) returns -1 and writes nothing.  Otherwise it returns 0 with
    n = q * d + r and r < d.  `q` is cleared before `n` and `d` are read, and
    `r` is written last, so `q` must not be `n`, `d` or `r`; `r` may be either
    input.
  */
  method DivideUX(n: array<byte>, d: array<byte>, q: array<byte>, r: array<byte>, bytes: nat) returns (status: int)
    requires bytes <= n.Length && bytes <= d.Length && bytes <= q.Length && bytes <= r.Length
    requires q != n && q != d && q != r
    modifies q, r
    ensures status == 0 || status == -1
    ensures status == -1 <==> old(Value(d[..bytes])) == 0
    ensures status == -1 ==> q[..] == old(q[..]) && r[..] == old(r[..])
    ensures status == 0 ==>
              old(Value(n[..bytes])) == Value(q[..bytes]) * old(Value(d[..bytes])) + Value(r[..bytes]) &&
              Value(r[..bytes]) < old(Value(d[..bytes]))
    ensures q[bytes..] == old(q[bytes..]) && r[bytes..] == old(r[bytes..])
  {
    ghost var N, D := Value(n[..bytes]), Value(d[..bytes]);
    var z := IsZeroX(d, bytes);
    if z == 1 {
      return -1;
    }
    NonZeroWidth(d[..bytes]);
    LongDivide(n, d, q, r, bytes, N, D);
    return 0;
  }

  /** A buffer with a non-zero value has at least one byte. */
  lemma {:induction false} NonZeroWidth(s: seq<byte>)
    requires Value(s) != 0
    ensures |s| >= 1
  {
  }

  /** The work of mfDivideUX once the divisor is known to be non-zero. */
  method LongDivide(n: array<byte>, d: array<byte>, q: array<byte>, r: array<byte>, bytes: nat, ghost N: nat, ghost D: nat)
    requires 1 <= bytes <= n.Length && bytes <= d.Length && bytes <= q.Length && bytes <= r.Length
    requires q != n && q != d && q != r
    requires N == Value(n[..bytes]) && D == Value(d[..bytes]) && D >= 1
    modifies q, r
    ensures N == Value(q[..bytes]) * D + Value(r[..bytes]) && Value(r[..bytes]) < D
    ensures q[bytes..] == old(q[bytes..]) && r[bytes..] == old(r[bytes..])
  {
    var lo, sq, bit, k := StartDivision(n, d, q, bytes, N, D);
    RestoreQuotient(lo, sq, bit, q, bytes, D, N, k);
    CopyX(lo, r, bytes);
    assert r[..bytes] == lo[..];
    RestoredDivision(Value(lo[..]), Value(q[..bytes]), D, N);
  }

  /** The set-up of mfDivideUX: clear q, copy n and d, set the mask to 1 and align the divisor. */
  method StartDivision(n: array<byte>, d: array<byte>, q: array<byte>, bytes: nat, ghost N: nat, ghost D: nat)
    returns (lo: array<byte>, sq: array<byte>, bit: array<byte>, ghost k: nat)
    requires 1 <= bytes <= n.Length && bytes <= d.Length && bytes <= q.Length
    requires q != n && q != d
    requires N == Value(n[..bytes]) && D == Value(d[..bytes]) && D >= 1
    modifies q
    ensures fresh(lo) && fresh(sq) && fresh(bit)
    ensures lo.Length == bytes && sq.Length == bytes && bit.Length == bytes
    ensures lo != sq && lo != bit && sq != bit
    ensures Value(bit[..]) == Pow2(k) && Value(sq[..]) == D * Pow2(k)
    ensures Restoring(Value(lo[..]), Value(q[..bytes]), D, N, k + 1)
    ensures q[bytes..] == old(q[bytes..])
  {
    lo := new byte[bytes];
    sq := new byte[bytes];
    bit := new byte[bytes];
    ZeroX(bit, bytes);
    ValueUpdate(bit[..], 0, 1);
    bit[0] := 1;
    ZeroX(q, bytes);
    CopyX(n, lo, bytes);
    CopyX(d, sq, bytes);
    assert lo[..] == lo[..bytes] && sq[..] == sq[..bytes] && bit[..] == bit[..bytes];
    k := AlignDivisor(sq, bit, bytes, D);
    ValueBound(lo[..]);
    TwiceMul(D, k);
    assert Restoring(N, 0, D, N, k + 1);
  }

  /** With no bits left to go, the remainder and the quotient are those of the division. */
  lemma {:induction false} RestoredDivision(L: nat, Q: nat, D: nat, N: nat)
    requires Restoring(L, Q, D, N, 0)
    ensures N == Q * D + L && L < D
  {
    assert Pow2(0) == 1;
  }
}
