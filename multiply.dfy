/**
  mfMultiplyUX: schoolbook multiplication of two `bytes`-byte numbers into a
  low half `d` and a high half `o`.

  Column c of the product is the sum of s1[i] * s2[c - i].  The routine sums
  each column into a 32-bit `t`, widens it into `temp`, adds it to a running
  `accumulator`, emits the accumulator's low byte as byte c of the product and
  shifts the accumulator down one byte.  Columns 0 .. bytes-1 go to `dt`, the
  rest to `ot`, and both are copied out at the end.
*/
module Multiply {
  import opened WideValue
  import opened BufferOps

  /** The product s1[i] * s2[c - i] when both indices are in range, else 0. */
  function Term(a: seq<byte>, b: seq<byte>, i: nat, c: nat): nat
  {
    if i < |a| && i <= c && c - i < |b| then (a[i] as int) * (b[c - i] as int) else 0
  }

  /** Column c of the product, summed over i = from .. |a|-1. */
  function ColFrom(a: seq<byte>, b: seq<byte>, c: nat, from: nat): nat
    decreases |a| - from
  {
    if from >= |a| then 0 else Term(a, b, from, c) + ColFrom(a, b, c, from + 1)
  }

  /** Column c of the schoolbook product of `a` and `b`. */
  function Conv(a: seq<byte>, b: seq<byte>, c: nat): nat
  {
    ColFrom(a, b, c, 0)
  }

  /** The first k columns of the product, each at its weight 256^c. */
  function Poly(a: seq<byte>, b: seq<byte>, k: nat): nat
  {
    if k == 0 then 0 else Poly(a, b, k - 1) + Conv(a, b, k - 1) * Pow256(k - 1)
  }

  // ---------------------------------------------------------------------------
  // Columns

  lemma {:induction false} ColAbove(a: seq<byte>, b: seq<byte>, c: nat, from: nat)
    requires from > c
    ensures ColFrom(a, b, c, from) == 0
    decreases |a| - from
  {
    if from < |a| {
      ColAbove(a, b, c, from + 1);
    }
  }

  /** Terms below `from` vanish when their s2 index is past the top. */
  lemma {:induction false} ColBelow(a: seq<byte>, b: seq<byte>, c: nat, i: nat, from: nat)
    requires i <= from && c + 1 >= |b| + from
    ensures ColFrom(a, b, c, i) == ColFrom(a, b, c, from)
    decreases from - i
  {
    if i < from {
      ColBelow(a, b, c, i + 1, from);
      if i >= |a| {
        ColAbove(a, b, 0, |a| + 1);
      }
    }
  }

  /** Columns beyond the last one are empty. */
  lemma {:induction false} ColPastEnd(a: seq<byte>, b: seq<byte>, c: nat, from: nat)
    requires c + 1 >= |a| + |b|
    ensures ColFrom(a, b, c, from) == 0
    decreases |a| - from
  {
    if from < |a| {
      ColPastEnd(a, b, c, from + 1);
    }
  }

  lemma {:induction false} ColShift(a: seq<byte>, b: seq<byte>, c: nat, from: nat)
    requires |a| > 0 && from >= 1 && c >= 1
    ensures ColFrom(a, b, c, from) == ColFrom(a[1..], b, c - 1, from - 1)
    decreases |a| - from
  {
    if from < |a| {
      ColShift(a, b, c, from + 1);
      assert a[from] == a[1..][from - 1];
    }
  }

  /** Column c splits into the a[0] term and column c - 1 of the rest of `a`. */
  lemma {:induction false} ConvStep(a: seq<byte>, b: seq<byte>, c: nat)
    requires |a| > 0
    ensures Conv(a, b, c) == (if c < |b| then (a[0] as int) * (b[c] as int) else 0) + (if c == 0 then 0 else Conv(a[1..], b, c - 1))
  {
    if c == 0 {
      ColAbove(a, b, 0, 1);
    } else {
      ColShift(a, b, c, 1);
    }
  }

  // ---------------------------------------------------------------------------
  // The columns add up to the product

  lemma {:induction false} PolyEmpty(a: seq<byte>, b: seq<byte>, k: nat)
    requires |a| == 0
    ensures Poly(a, b, k) == 0
  {
    if k > 0 {
      PolyEmpty(a, b, k - 1);
    }
  }

  lemma {:induction false} PolySplit(a: seq<byte>, b: seq<byte>, k: nat)
    requires |a| > 0
    ensures Poly(a, b, k + 1) == a[0] * Value(b[..if k + 1 < |b| then k + 1 else |b|]) + 256 * Poly(a[1..], b, k)
  {
    var a' := a[1..];
    ConvStep(a, b, k);
    if k == 0 {
      if |b| > 0 {
        assert Value(b[..1]) == b[0] + 256 * Value(b[..1][1..]);
        assert b[..1][1..] == [];
      }
    } else {
      PolySplit(a, b, k - 1);
      var m := if k < |b| then k else |b|;
      var X := Pow256(k - 1);
      var e := if k < |b| then b[k] else 0;
      if k < |b| {
        ValuePrefix(b, k);
      } else {
        assert b[..m] == b[..if k + 1 < |b| then k + 1 else |b|];
      }
      PolySplitArith(a[0], Value(b[..m]), e, Poly(a', b, k - 1), Conv(a', b, k - 1), X);
    }
  }

  lemma {:induction false} PolySplitArith(a0: int, vb: int, e: int, p: int, cv: int, X: int)
    ensures a0 * vb + 256 * p + (a0 * e + cv) * (256 * X)
            == a0 * (vb + e * (256 * X)) + 256 * (p + cv * X)
  {
    Distrib(a0, vb, e * (256 * X));
    MulAssoc(a0, e, 256 * X);
    Distrib(256 * X, a0 * e, cv);
    MulAssoc(256, X, cv);
  }

  /** The schoolbook identity: all the columns together are the product. */
  lemma {:induction false} PolyProduct(a: seq<byte>, b: seq<byte>)
    ensures Poly(a, b, |a| + |b|) == Value(a) * Value(b)
  {
    if |a| == 0 {
      PolyEmpty(a, b, |b|);
    } else {
      var a' := a[1..];
      PolySplit(a, b, |a| + |b| - 1);
      assert b[..|b|] == b;
      assert |a'| + |b| == |a| + |b| - 1;
      PolyProduct(a', b);
      ProductArith(a[0], Value(a'), Value(b));
    }
  }

  lemma {:induction false} ProductArith(a0: int, va: int, vb: int)
    ensures a0 * vb + 256 * (va * vb) == (a0 + 256 * va) * vb
  {
    MulAssoc(256, va, vb);
  }

  /** Emitting byte `digit` of column k keeps the accumulator equation. */
  lemma {:induction false} EmitDigit(a: seq<byte>, b: seq<byte>, out: seq<byte>, A: nat, A2: nat, digit: byte)
    requires Value(out) + A * Pow256(|out|) == Poly(a, b, |out|)
    requires digit + 256 * A2 == A + Conv(a, b, |out|)
    ensures Value(out + [digit]) + A2 * Pow256(|out| + 1) == Poly(a, b, |out| + 1)
  {
    ValueAppend(out, digit);
    EmitArith(Value(out), A, A2, digit, Conv(a, b, |out|), Pow256(|out|));
  }

  lemma {:induction false} EmitArith(vo: int, A: int, A2: int, digit: int, cv: int, X: int)
    requires digit + 256 * A2 == A + cv
    ensures vo + digit * X + A2 * (256 * X) == (vo + A * X) + cv * X
  {
    MulAssoc(A2, 256, X);
    Distrib(X, digit, 256 * A2);
    Distrib(X, A, cv);
  }

  /** After the last column the accumulator holds one byte, and the output is the product. */
  lemma {:induction false} LastDigit(a: seq<byte>, b: seq<byte>, out: seq<byte>, A: nat)
    requires |a| == |b| >= 1 && |out| == 2 * |a| - 1
    requires Value(out) + A * Pow256(|out|) == Poly(a, b, |out|)
    ensures A < 256 && Value(out + [A]) == Value(a) * Value(b)
  {
    LastColumn(a, b, |out|);
    ProductRoom(a, b, |out|);
    TopDigitArith(Value(out), A, Pow256(|out|), Value(a) * Value(b));
    ValueAppend(out, A);
  }

  /** The last column of a square product is empty, so the columns before it already make up the product. */
  lemma {:induction false} LastColumn(a: seq<byte>, b: seq<byte>, k: nat)
    requires |a| == |b| >= 1 && k == 2 * |a| - 1
    ensures Poly(a, b, k) == Value(a) * Value(b)
  {
    ColPastEnd(a, b, k, 0);
    assert Poly(a, b, k + 1) == Poly(a, b, k) + Conv(a, b, k) * Pow256(k);
    PolyProduct(a, b);
  }

  /** A product of two n-byte numbers fits in 2n bytes. */
  lemma {:induction false} ProductRoom(a: seq<byte>, b: seq<byte>, k: nat)
    requires |a| == |b| >= 1 && k == 2 * |a| - 1
    ensures Value(a) * Value(b) < 256 * Pow256(k)
  {
    var n := |a|;
    ValueBound(a);
    ValueBound(b);
    ProductBelow(Value(a), Value(b), Pow256(n));
    Pow256Add(n, n);
    assert Pow256(k + 1) == 256 * Pow256(k);
  }

  lemma {:induction false} TopDigitArith(vo: nat, A: nat, X: nat, P: nat)
    requires vo + A * X == P && P < 256 * X
    ensures A < 256 && vo + A * X == P
  {
    if A >= 256 {
      MulMonotone(256, A, X);
    }
  }

  lemma {:induction false} ProductBelow(x: nat, y: nat, P: nat)
    requires x < P && y < P
    ensures x * y < P * P
  {
    MulMonotone(x, P - 1, y);
    MulMonotone(y, P - 1, P - 1);
    MulMonotone(y, P, P - 1);
  }

  lemma {:induction false} ByteProduct(x: byte, y: byte)
    ensures x * y <= 65025
  {
    MulMonotone(x, 255, y);
    MulMonotone(y, 255, 255);
  }

  // ---------------------------------------------------------------------------
  // The routine

  /**
    The accumulator invariant of both phases: the bytes emitted so far plus
    the accumulator at their weight are the first |out| columns, and the
    accumulator stays below 2^16.
  */
  ghost predicate Accumulated(a: seq<byte>, b: seq<byte>, out: seq<byte>, A: nat)
  {
    Value(out) + A * Pow256(|out|) == Poly(a, b, |out|) && A < 0x1_0000
  }

  /** Each column holds at most |a| byte products. */
  lemma {:induction false} ColBound(a: seq<byte>, b: seq<byte>, c: nat, from: nat)
    ensures ColFrom(a, b, c, from) <= (if from < |a| then |a| - from else 0) * 65025
    decreases |a| - from
  {
    if from < |a| {
      ColBound(a, b, c, from + 1);
      if from < |a| && from <= c && c - from < |b| {
        ByteProduct(a[from], b[c - from]);
      }
    }
  }

  // ---------------------------------------------------------------------------
  // The routine as a function of its inputs

  /** The number mfUintExtX leaves in a buffer of w bytes: at most the low 4 bytes of t. */
  function Widen(t: nat, w: nat): nat
  {
    if w < 4 then t % Pow256(w) else t % 0x1_0000_0000
  }

  /**
    One column step as the routine performs it on an accumulator of |acc|
    bytes: mfUintExtX keeps at most the low 4 bytes of the column sum t (fewer
    when the accumulator is narrower), mfAddUX adds modulo 256^|acc|, the low
    byte is emitted, and the other bytes move down one place while the top
    byte stays where it was.
  */
  function ColumnStep(acc: seq<byte>, t: nat): (r: (byte, seq<byte>))
    requires |acc| >= 1
    ensures |r.1| == |acc|
  {
    ShiftOut(ToBytes(Value(acc) + Widen(t, |acc|), |acc|))
  }

  /** The low byte of a sum, and the sum moved down one byte with its top byte kept. */
  function ShiftOut(sum: seq<byte>): (r: (byte, seq<byte>))
    requires |sum| >= 1
    ensures |r.1| == |sum|
  {
    (sum[0], sum[1..] + [sum[|sum| - 1]])
  }

  /**
    With an accumulator of 4 bytes or more that holds less than 2^16, and a
    column sum below 2^23, the step is exact: the emitted byte and the new
    accumulator make up the old accumulator plus the column, and the new
    accumulator is again below 2^16.
  */
  lemma {:induction false} ColumnStepExact(acc: seq<byte>, t: nat)
    requires |acc| >= 4 && Value(acc) < 0x1_0000 && t < 0x80_0000
    ensures ColumnStep(acc, t).0 + 256 * Value(ColumnStep(acc, t).1) == Value(acc) + t
    ensures Value(ColumnStep(acc, t).1) < 0x1_0000
  {
    var v := Value(acc) + t;
    var sum := ToBytes(v, |acc|);
    ColumnStepWide(acc, t, v);
    ShiftedSum(sum, v);
  }

  /** On a 4-byte accumulator or wider, a 32-bit column sum is added whole. */
  lemma {:induction false} ColumnStepWide(acc: seq<byte>, t: nat, v: nat)
    requires |acc| >= 4 && t < 0x1_0000_0000 && v == Value(acc) + t
    ensures ColumnStep(acc, t) == ShiftOut(ToBytes(v, |acc|))
  {
    assert Widen(t, |acc|) == t;
  }

  /** A sum below 2^24 in 4 bytes or more: its top byte is clear, so shifting it down divides by 256. */
  lemma {:induction false} ShiftedSum(sum: seq<byte>, v: nat)
    requires |sum| >= 4 && v < 0x81_0000 && sum == ToBytes(v, |sum|)
    ensures ShiftOut(sum).0 + 256 * Value(ShiftOut(sum).1) == v
    ensures Value(ShiftOut(sum).1) < 0x1_0000
  {
    var w := |sum|;
    var rest := sum[1..];
    assert ShiftOut(sum) == (sum[0], rest + [sum[w - 1]]);
    assert Pow256(3) == 0x100_0000;
    Pow256Monotone(3, w - 1);
    Pow256Monotone(4, w);
    ToBytesValue(v, w);
    ValueTopZero(sum);
    ValueAppend(rest, 0);
    ValueLowByte(sum);
    assert v == sum[0] + 256 * Value(rest);
  }

  /**
    With a 2-byte accumulator (mfMultiplyU16) the step is not exact: column 0
    of 0x0010 * 0x0010 is 256, after which the accumulator reads 0x0101
    instead of 1, because its top byte is never cleared.
  */
  lemma {:induction false} ColumnStepNarrow()
    ensures ColumnStep([0, 0], 256) == (0, [1, 1])
    ensures ColumnStep([0, 0], 256).0 + 256 * Value(ColumnStep([0, 0], 256).1) != Value([0, 0]) + 256
  {
    assert Pow256(2) == 0x1_0000;
    assert Widen(256, 2) == 256;
    assert Value([0, 0]) == 0 + 256 * Value([0]);
    assert Value([0]) == 0 + 256 * Value([]);
    var sum := ToBytes(256, 2);
    assert ColumnStep([0, 0], 256) == ShiftOut(sum);
    assert sum == [0] + ToBytes(1, 1);
    assert ToBytes(1, 1) == [1] + ToBytes(0, 0);
    assert sum == [0, 1];
    assert sum[1..] + [sum[1]] == [1, 1];
    assert Value([1, 1]) == 1 + 256 * Value([1]);
    assert Value([1]) == 1 + 256 * Value([]);
  }

  /**
    The bytes the routine emits from column c on, with accumulator `acc`:
    one byte per remaining column, then the accumulator's low byte.
  */
  function Emit(a: seq<byte>, b: seq<byte>, acc: seq<byte>, c: nat): (r: seq<byte>)
    requires |a| == |b| >= 1 && |acc| >= 1 && c <= 2 * |a| - 1
    ensures |r| == 2 * |a| - c
    decreases 2 * |a| - 1 - c
  {
    if c == 2 * |a| - 1 then [acc[0]]
    else
      var step := ColumnStep(acc, Conv(a, b, c));
      [step.0] + Emit(a, b, step.1, c + 1)
  }

  /**
    The low half followed by the high half that mfMultiplyUX writes, with an
    accumulator of `width` bytes (the routine as written uses width = bytes).
  */
  function Product(a: seq<byte>, b: seq<byte>, width: nat): (r: seq<byte>)
    requires |a| == |b| >= 1 && width >= 1
    ensures |r| == 2 * |a|
  {
    Emit(a, b, Zeros(width), 0)
  }

  lemma {:induction false} EmitProduct(a: seq<byte>, b: seq<byte>, acc: seq<byte>, out: seq<byte>)
    requires 1 <= |a| == |b| <= 128 && |acc| >= 4 && |out| <= 2 * |a| - 1
    requires Accumulated(a, b, out, Value(acc))
    ensures Value(out + Emit(a, b, acc, |out|)) == Value(a) * Value(b)
    decreases 2 * |a| - 1 - |out|
  {
    if |out| == 2 * |a| - 1 {
      assert Emit(a, b, acc, |out|) == [acc[0]];
      LastDigit(a, b, out, Value(acc));
      ValueSmall(acc);
    } else {
      var step := ColumnStep(acc, Conv(a, b, |out|));
      EmitNext(a, b, acc, out);
      EmitUnfold(a, b, acc, |out|);
      var rest := Emit(a, b, step.1, |out| + 1);
      ConcatAssoc(out, [step.0], rest);
      EmitProduct(a, b, step.1, out + [step.0]);
    }
  }

  /** One more column keeps the accumulator invariant. */
  lemma {:induction false} EmitNext(a: seq<byte>, b: seq<byte>, acc: seq<byte>, out: seq<byte>)
    requires 1 <= |a| == |b| <= 128 && |acc| >= 4 && |out| < 2 * |a| - 1
    requires Accumulated(a, b, out, Value(acc))
    ensures Accumulated(a, b, out + [ColumnStep(acc, Conv(a, b, |out|)).0], Value(ColumnStep(acc, Conv(a, b, |out|)).1))
  {
    ConvSmall(a, b, |out|);
    ColumnStepExact(acc, Conv(a, b, |out|));
    var step := ColumnStep(acc, Conv(a, b, |out|));
    NextAccumulated(a, b, out, Value(acc), Value(step.1), step.0);
  }

  lemma {:induction false} EmitUnfold(a: seq<byte>, b: seq<byte>, acc: seq<byte>, c: nat)
    requires |a| == |b| >= 1 && |acc| >= 1 && c < 2 * |a| - 1
    ensures Emit(a, b, acc, c) == [ColumnStep(acc, Conv(a, b, c)).0] + Emit(a, b, ColumnStep(acc, Conv(a, b, c)).1, c + 1)
  {
  }

  lemma {:induction false} NextAccumulated(a: seq<byte>, b: seq<byte>, out: seq<byte>, A: nat, A2: nat, digit: byte)
    requires Accumulated(a, b, out, A) && A2 < 0x1_0000
    requires digit + 256 * A2 == A + Conv(a, b, |out|)
    ensures Accumulated(a, b, out + [digit], A2)
  {
    EmitDigit(a, b, out, A, A2, digit);
  }

  /** A column of at most 128 byte products fits the routine's 23-bit bound. */
  lemma {:induction false} ConvSmall(a: seq<byte>, b: seq<byte>, c: nat)
    requires |a| <= 128
    ensures Conv(a, b, c) < 0x80_0000
  {
    ColBound(a, b, c, 0);
    MulMonotone(|a|, 128, 65025);
  }

  /**
    With an accumulator of at least 4 bytes the emitted bytes are the product:
    low half plus high half times 256^|a| is Value(a) * Value(b).
  */
  lemma {:induction false} MultiplyProduct(a: seq<byte>, b: seq<byte>, width: nat)
    requires 1 <= |a| == |b| <= 128 && width >= 4
    ensures Value(Product(a, b, width)) == Value(a) * Value(b)
  {
    ValueZeros(width);
    assert Accumulated(a, b, [], 0);
    EmitProduct(a, b, Zeros(width), []);
    assert [] + Emit(a, b, Zeros(width), 0) == Product(a, b, width);
  }

  /** The same, read as the two halves the routine writes: d + o * 256^|a|. */
  lemma {:induction false} ProductHalves(a: seq<byte>, b: seq<byte>, width: nat)
    requires 1 <= |a| == |b| <= 128 && width >= 4
    ensures Value(Product(a, b, width)[..|a|]) + Value(Product(a, b, width)[|a|..]) * Pow256(|a|) == Value(a) * Value(b)
  {
    MultiplyProduct(a, b, width);
    var p := Product(a, b, width);
    assert p[..|a|] + p[|a|..] == p;
    Halves(p[..|a|], p[|a|..]);
  }

  /** A product laid out as a low half followed by a high half. */
  lemma {:induction false} Halves(lo: seq<byte>, hi: seq<byte>)
    ensures Value(lo + hi) == Value(lo) + Value(hi) * Pow256(|lo|)
  {
    ValueConcat(lo, hi);
  }

  /**
    mfMultiplyU16 (mfMultiplyUX with 2 bytes) of 0x0010 by 0x0010 yields the
    low half 0x0100 and the high half 0x0101 instead of 0x0000.
  */
  lemma {:induction false} MultiplyU16Narrow()
    ensures Product([16, 0], [16, 0], 2) == [0, 1, 1, 1]
    ensures Value(Product([16, 0], [16, 0], 2)) != Value([16, 0]) * Value([16, 0])
  {
    var a: seq<byte> := [16, 0];
    assert Conv(a, a, 0) == 256 by {
      assert ColFrom(a, a, 0, 2) == 0;
    }
    assert Conv(a, a, 1) == 0 by {
      assert ColFrom(a, a, 1, 2) == 0;
    }
    assert Conv(a, a, 2) == 0 by {
      assert ColFrom(a, a, 2, 2) == 0;
    }
    ColumnStepNarrow();
    assert Pow256(2) == 0x1_0000;
    assert Value([1]) == 1 + 256 * Value([]);
    assert Value([1, 1]) == 1 + 256 * Value([1]);
    var z := ToBytes(257, 2);
    assert z == [1] + ToBytes(1, 1);
    assert ToBytes(1, 1) == [1] + ToBytes(0, 0);
    assert ColumnStep([1, 1], 0) == (1, [1, 1]);
    assert Zeros(2) == [0, 0];
    assert Emit(a, a, [1, 1], 3) == [1];
    assert Emit(a, a, [1, 1], 2) == [1, 1];
    assert Emit(a, a, [1, 1], 1) == [1, 1, 1];
    assert Value([16, 0]) == 16 + 256 * Value([0]);
    assert Value([0]) == 0 + 256 * Value([]);
    assert Value([0, 1, 1, 1]) == 0 + 256 * Value([1, 1, 1]);
    assert Value([1, 1, 1]) == 1 + 256 * Value([1, 1]);
  }

  // ---------------------------------------------------------------------------
  // The routine

  /** The inner loop of both phases: t = sum of s1[i] * s2[lower + upper - i] for i = lower .. upper. */
  method ColumnSum(s1: array<byte>, s2: array<byte>, lower: nat, upper: nat, bytes: nat) returns (t: nat)
    requires lower <= upper < bytes <= 128 && bytes <= s1.Length && bytes <= s2.Length
    requires lower == 0 || upper == bytes - 1
    ensures t == Conv(s1[..bytes], s2[..bytes], lower + upper)
    ensures t < 0x80_0000
  {
    ghost var A, B, c := s1[..bytes], s2[..bytes], lower + upper;
    var i := lower;
    var j: int := upper;
    t := 0;
    while i <= upper
      invariant lower <= i <= upper + 1 && j == c - i
      invariant t + ColFrom(A, B, c, i) == ColFrom(A, B, c, lower)
      invariant t <= (i - lower) * 65025
    {
      ByteProduct(s1[i], s2[j]);
      assert Term(A, B, i, c) == (s1[i] as int) * (s2[j] as int);
      t := t + (s1[i] as int) * (s2[j] as int);
      i := i + 1;
      j := j - 1;
    }
    if lower == 0 {
      ColAbove(A, B, c, upper + 1);
    } else {
      ColBelow(A, B, c, 0, lower);
    }
  }

  /**
    One column of either phase: sum it, widen it with mfUintExtX, add it to the
    accumulator with mfAddUX, take the accumulator's low byte and shift the
    accumulator down one byte (its top byte is left as it was).
  */
  method AccumulateColumn(s1: array<byte>, s2: array<byte>, lower: nat, upper: nat,
                          acc: array<byte>, temp: array<byte>, bytes: nat) returns (digit: byte)
    requires lower <= upper < bytes <= 128 && bytes <= s1.Length && bytes <= s2.Length
    requires lower == 0 || upper == bytes - 1
    requires acc.Length >= 1 && temp.Length == acc.Length && acc != temp
    modifies acc, temp
    ensures (digit, acc[..]) == ColumnStep(old(acc[..]), Conv(old(s1[..bytes]), old(s2[..bytes]), lower + upper))
  {
    var w := acc.Length;
    ghost var A0 := acc[..];
    assert A0 == acc[..w];
    var t := ColumnSum(s1, s2, lower, upper, bytes);
    UintExtX(t, temp, w);
    ghost var T := Value(temp[..w]);
    var carry := AddUX(acc, temp, acc, w);
    ghost var A1 := acc[..];
    assert A1 == acc[..w];
    AddedColumn(A0, T, carry, A1);
    digit := acc[0];
    var a := 1;
    while a < w
      invariant 1 <= a <= w
      invariant forall k :: 0 <= k < a - 1 ==> acc[k] == A1[k + 1]
      invariant forall k :: a - 1 <= k < w ==> acc[k] == A1[k]
    {
      acc[a - 1] := acc[a];
      a := a + 1;
    }
    assert acc[..] == A1[1..] + [A1[w - 1]];
    ColumnStepOf(A0, t, T, A1);
  }

  /** The routine's widened column T and sum A1 are the ones ColumnStep describes. */
  lemma {:induction false} ColumnStepOf(A0: seq<byte>, t: nat, T: nat, A1: seq<byte>)
    requires |A0| >= 1 && T == t % Pow256(if |A0| < 4 then |A0| else 4)
    requires A1 == ToBytes(Value(A0) + T, |A0|)
    ensures ColumnStep(A0, t) == ShiftOut(A1)
  {
    assert Pow256(4) == 0x1_0000_0000;
    assert Widen(t, |A0|) == T;
  }

  /** What mfAddUX leaves in the accumulator is the sum's encoding modulo 256^|acc|. */
  lemma {:induction false} AddedColumn(A0: seq<byte>, T: nat, carry: int, A1: seq<byte>)
    requires |A1| == |A0| && (carry == 0 || carry == 1)
    requires Value(A1) + carry * Pow256(|A0|) == Value(A0) + T
    ensures A1 == ToBytes(Value(A0) + T, |A0|)
  {
    ValueBound(A1);
    MulDivCancel(carry, Value(A1), Pow256(|A0|));
    ToBytesMod(Value(A0) + T, |A0|);
    ValueInjective(A1, ToBytes(Value(A0) + T, |A0|));
  }

  /** Columns 0 .. bytes-1, emitted into `dt`. */
  method LowColumns(s1: array<byte>, s2: array<byte>, acc: array<byte>, temp: array<byte>, dt: array<byte>, bytes: nat)
    returns (ghost out: seq<byte>)
    requires 1 <= bytes <= 128 && bytes <= s1.Length && bytes <= s2.Length
    requires acc.Length >= 1 && temp.Length == acc.Length && dt.Length == bytes
    requires acc != temp && dt != acc && dt != temp
    requires s1 != acc && s1 != temp && s1 != dt && s2 != acc && s2 != temp && s2 != dt
    modifies acc, temp, dt
    ensures |out| == bytes && dt[..] == out
    ensures out + Emit(s1[..bytes], s2[..bytes], acc[..], bytes) == old(Emit(s1[..bytes], s2[..bytes], acc[..], 0))
  {
    ghost var S1, S2 := s1[..bytes], s2[..bytes];
    ghost var total := Emit(S1, S2, acc[..], 0);
    out := [];
    var upper := 0;
    while upper < bytes
      invariant 0 <= upper <= bytes
      invariant |out| == upper && dt[..upper] == out
      invariant out + Emit(S1, S2, acc[..], |out|) == total
    {
      ghost var A := acc[..];
      var digit := AccumulateColumn(s1, s2, 0, upper, acc, temp, bytes);
      dt[upper] := digit;
      assert Emit(S1, S2, A, |out|) == [digit] + Emit(S1, S2, acc[..], |out| + 1);
      assert out + Emit(S1, S2, A, |out|) == (out + [digit]) + Emit(S1, S2, acc[..], |out| + 1);
      out := out + [digit];
      upper := upper + 1;
    }
  }

  /** Columns bytes .. 2*bytes-2, emitted into `ot`. */
  method HighColumns(s1: array<byte>, s2: array<byte>, acc: array<byte>, temp: array<byte>, ot: array<byte>, bytes: nat,
                     ghost low: seq<byte>)
    returns (ghost out: seq<byte>)
    requires 1 <= bytes <= 128 && bytes <= s1.Length && bytes <= s2.Length
    requires acc.Length >= 1 && temp.Length == acc.Length && ot.Length == bytes
    requires acc != temp && ot != acc && ot != temp
    requires s1 != acc && s1 != temp && s1 != ot && s2 != acc && s2 != temp && s2 != ot
    requires |low| == bytes
    modifies acc, temp, ot
    ensures |out| == 2 * bytes - 1 && out[..bytes] == low && ot[..bytes - 1] == out[bytes..]
    ensures out + Emit(s1[..bytes], s2[..bytes], acc[..], |out|) == old(low + Emit(s1[..bytes], s2[..bytes], acc[..], bytes))
  {
    ghost var S1, S2 := s1[..bytes], s2[..bytes];
    ghost var total := low + Emit(S1, S2, acc[..], bytes);
    out := low;
    var lower := 1;
    while lower < bytes
      invariant 1 <= lower <= bytes
      invariant |out| == bytes + lower - 1 && out[..bytes] == low && ot[..lower - 1] == out[bytes..]
      invariant out + Emit(S1, S2, acc[..], |out|) == total
    {
      ghost var A := acc[..];
      var digit := AccumulateColumn(s1, s2, lower, bytes - 1, acc, temp, bytes);
      ot[lower - 1] := digit;
      assert Emit(S1, S2, A, |out|) == [digit] + Emit(S1, S2, acc[..], |out| + 1);
      assert out + Emit(S1, S2, A, |out|) == (out + [digit]) + Emit(S1, S2, acc[..], |out| + 1);
      out := out + [digit];
      lower := lower + 1;
    }
  }

  /**
    The body of mfMultiplyUX with an accumulator (and its widening buffer
    `temp`) of `width` bytes: the low half of Product goes to d, the high half
    to o.  The halves are built in scratch buffers, so d and o may be the
    inputs, but not each other.
  */
  method MultiplyWith(s1: array<byte>, s2: array<byte>, d: array<byte>, o: array<byte>, bytes: nat, width: nat)
    requires 1 <= bytes <= 128 && width >= 1
    requires bytes <= s1.Length && bytes <= s2.Length && bytes <= d.Length && bytes <= o.Length
    requires d != o
    modifies d, o
    ensures d[..bytes] + o[..bytes] == Product(old(s1[..bytes]), old(s2[..bytes]), width)
    ensures d[bytes..] == old(d[bytes..]) && o[bytes..] == old(o[bytes..])
  {
    var dt, ot := Columns(s1, s2, bytes, width);
    CopyX(dt, d, bytes);
    CopyX(ot, o, bytes);
  }

  /** The two halves the routine builds in its scratch buffers dt and ot before copying them out. */
  method Columns(s1: array<byte>, s2: array<byte>, bytes: nat, width: nat) returns (dt: array<byte>, ot: array<byte>)
    requires 1 <= bytes <= 128 && width >= 1
    requires bytes <= s1.Length && bytes <= s2.Length
    ensures fresh(dt) && fresh(ot) && dt.Length == bytes && ot.Length == bytes
    ensures dt[..] + ot[..] == Product(s1[..bytes], s2[..bytes], width)
  {
    ghost var S1, S2 := s1[..bytes], s2[..bytes];
    dt := new byte[bytes];
    ot := new byte[bytes];
    var acc := new byte[width];
    var temp := new byte[width];
    ZeroX(acc, width);
    assert acc[..] == acc[..width];
    ghost var P := Product(S1, S2, width);
    ghost var low := LowColumns(s1, s2, acc, temp, dt, bytes);
    assert low + Emit(S1, S2, acc[..], bytes) == P;
    ghost var out := HighColumns(s1, s2, acc, temp, ot, bytes, low);
    ghost var last := acc[0];
    assert Emit(S1, S2, acc[..], |out|) == [last];
    assert out + [last] == P;
    ot[bytes - 1] := acc[0];
    Assemble(out, low, dt[..], ot[..], last, P);
  }

  /** The low half and the high half with its last byte set are the emitted bytes. */
  lemma {:induction false} Assemble(out: seq<byte>, low: seq<byte>, lowHalf: seq<byte>, highHalf: seq<byte>, last: byte, P: seq<byte>)
    requires |low| >= 1 && |out| == 2 * |low| - 1 && out[..|low|] == low && lowHalf == low
    requires |highHalf| == |low| && highHalf[..|low| - 1] == out[|low|..] && highHalf[|low| - 1] == last
    requires out + [last] == P
    ensures lowHalf + highHalf == P
  {
    assert highHalf == out[|low|..] + [last];
    assert out == low + out[|low|..];
  }

  /**
    mfMultiplyUX as written: the accumulator is `bytes` wide.  From 4 bytes
    on, d + o * 256^bytes is the product.
  */
  method MultiplyUX(s1: array<byte>, s2: array<byte>, d: array<byte>, o: array<byte>, bytes: nat)
    requires 1 <= bytes <= 128
    requires bytes <= s1.Length && bytes <= s2.Length && bytes <= d.Length && bytes <= o.Length
    requires d != o
    modifies d, o
    ensures d[..bytes] + o[..bytes] == Product(old(s1[..bytes]), old(s2[..bytes]), bytes)
    ensures bytes >= 4 ==>
              Value(d[..bytes]) + Value(o[..bytes]) * Pow256(bytes) == old(Value(s1[..bytes])) * old(Value(s2[..bytes]))
    ensures d[bytes..] == old(d[bytes..]) && o[bytes..] == old(o[bytes..])
  {
    ghost var S1, S2 := s1[..bytes], s2[..bytes];
    MultiplyWith(s1, s2, d, o, bytes, bytes);
    if bytes >= 4 {
      ProductHalves(S1, S2, bytes);
      var p := Product(S1, S2, bytes);
      assert d[..bytes] == p[..bytes] && o[..bytes] == p[bytes..];
    }
  }

  /**
    mfMultiplyUX with the accumulator widened to at least 4 bytes, which is
    what the routine needs to be exact for every width.
  */
  method MultiplyExactUX(s1: array<byte>, s2: array<byte>, d: array<byte>, o: array<byte>, bytes: nat)
    requires 1 <= bytes <= 128
    requires bytes <= s1.Length && bytes <= s2.Length && bytes <= d.Length && bytes <= o.Length
    requires d != o
    modifies d, o
    ensures Value(d[..bytes]) + Value(o[..bytes]) * Pow256(bytes) == old(Value(s1[..bytes])) * old(Value(s2[..bytes]))
    ensures d[bytes..] == old(d[bytes..]) && o[bytes..] == old(o[bytes..])
  {
    ghost var S1, S2 := s1[..bytes], s2[..bytes];
    var width := if bytes < 4 then 4 else bytes;
    MultiplyWith(s1, s2, d, o, bytes, width);
    ProductHalves(S1, S2, width);
    var p := Product(S1, S2, width);
    assert d[..bytes] == p[..bytes] && o[..bytes] == p[bytes..];
  }
}
