/**
  The byte-loop routines of MFMathLib (mfmathlib.c): extend, copy, zero, add,
  subtract, one-bit shifts, compare, zero test and bitwise OR on a little-endian
  buffer of `bytes` bytes.

  A C buffer `mfU8 *p` with a width `bytes` is an `array<byte>` together with that
  width; the routine acts on `p[..bytes]` and must leave `p[bytes..]` alone.
  Output buffers may be the same array as an input wherever the C code allows it,
  so contracts speak of inputs through `old(...)`.
*/
module BufferOps {
  import opened WideValue

  /** `mfComparisonResult`: Equal = 0, Greater = 1, Smaller = 2. */
  datatype Comparison = Equal | Greater | Smaller

  // ---------------------------------------------------------------------------
  // Specification of the shifts and of OR on whole buffers

  /** Byte j of `x >> 1`: its own bits 7..1, and bit 0 of the next byte as bit 7. */
  function ShiftRightSeq(s: seq<byte>): (r: seq<byte>)
    ensures |r| == |s|
  {
    seq(|s|, j requires 0 <= j < |s| => s[j] / 2 + (if j + 1 < |s| then (s[j + 1] % 2) * 128 else 0))
  }

  /** Byte j of `(x << 1) | c`: its own bits 6..0 moved up, and bit 7 of the byte below (or `c`). */
  function ShiftLeftSeqIn(s: seq<byte>, c: bit): (r: seq<byte>)
    ensures |r| == |s|
  {
    seq(|s|, j requires 0 <= j < |s| => 2 * (s[j] % 128) + (if j == 0 then c else s[j - 1] / 128))
  }

  function OrBytes(a: byte, b: byte): byte
  {
    OrByte(a, b);
    Or(a, b)
  }

  function OrSeq(a: seq<byte>, b: seq<byte>): (r: seq<byte>)
    requires |a| == |b|
    ensures |r| == |a|
  {
    seq(|a|, j requires 0 <= j < |a| => OrBytes(a[j], b[j]))
  }

  /** Shifting the buffer right by one bit halves its value. */
  lemma {:induction false} ShiftRightValue(s: seq<byte>)
    ensures Value(ShiftRightSeq(s)) == Value(s) / 2
  {
    if |s| == 1 {
      assert Value(s) == s[0] + 256 * Value(s[1..]);
      assert Value(ShiftRightSeq(s)) == s[0] / 2 + 256 * Value(ShiftRightSeq(s)[1..]);
    } else if |s| > 1 {
      var t := s[1..];
      assert ShiftRightSeq(s)[1..] == ShiftRightSeq(t);
      ShiftRightValue(t);
      ValueLowByte(t);
      var V := Value(t);
      assert Value(ShiftRightSeq(s)) == s[0] / 2 + (s[1] % 2) * 128 + 256 * (V / 2);
      assert Value(s) == s[0] + 256 * V;
      assert V == 2 * (V / 2) + V % 2;
      MulDivCancel(s[0] / 2 + (s[1] % 2) * 128 + 256 * (V / 2), s[0] % 2, 2);
    }
  }

  /** Shifting left by one bit with carry-in `c` doubles the value modulo 256^n. */
  lemma {:induction false} ShiftLeftInValue(s: seq<byte>, c: bit)
    ensures Value(ShiftLeftSeqIn(s, c)) == (2 * Value(s) + c) % Pow256(|s|)
  {
    if |s| > 0 {
      var t := s[1..];
      var c' := s[0] / 128;
      var r := ShiftLeftSeqIn(s, c);
      assert r[1..] == ShiftLeftSeqIn(t, c');
      ShiftLeftInValue(t, c');
      var low := 2 * (s[0] % 128) + c;
      var hi := 2 * Value(t) + c';
      assert r[0] == low && Value(r[1..]) == hi % Pow256(|t|);
      assert Value(r) == low + 256 * (hi % Pow256(|t|));
      assert Value(s) == s[0] + 256 * Value(t);
      ShiftLeftDigit(2 * Value(s) + c, Pow256(|s|), hi, low, Pow256(|t|));
    }
  }

  lemma {:induction false} ShiftLeftDigit(x: nat, M: nat, hi: nat, low: nat, P: nat)
    requires low < 256 && P > 0 && M == 256 * P && x == hi * 256 + low
    ensures x % M == low + 256 * (hi % P)
  {
    MulDivCancel(hi, low, 256);
    ModSplit(x, P);
  }

  /** With the top bit clear, shifting left loses nothing. */
  lemma {:induction false} ShiftLeftExact(s: seq<byte>)
    requires |s| > 0 && s[|s| - 1] < 128
    ensures Value(ShiftLeftSeqIn(s, 0)) == 2 * Value(s)
  {
    ShiftLeftInValue(s, 0);
    ValueTopBit(s);
    Pow2TopBit(|s|);
    assert Pow256(|s|) == 256 * Pow256(|s| - 1);
    MulDivCancel(0, 2 * Value(s), Pow256(|s|));
  }

  /** OR of buffers is OR of their values. */
  lemma {:induction false} OrSeqValue(a: seq<byte>, b: seq<byte>)
    requires |a| == |b|
    ensures Value(OrSeq(a, b)) == Or(Value(a), Value(b))
  {
    if |a| > 0 {
      assert OrSeq(a, b)[1..] == OrSeq(a[1..], b[1..]);
      OrSeqValue(a[1..], b[1..]);
      assert Pow2(8) == 256;
      OrDigits(a[0], Value(a[1..]), b[0], Value(b[1..]), 8, 256);
      assert Join(a[0], Value(a[1..]), 256) == Value(a) && Join(b[0], Value(b[1..]), 256) == Value(b);
    } else {
      assert Or(0, 0) == 0;
    }
  }

  /** Numeric order of equal-length buffers is decided by the top differing byte. */
  lemma {:induction false} TopDifferingByte(a: seq<byte>, b: seq<byte>, k: nat)
    requires |a| == |b| && k < |a| && a[k + 1..] == b[k + 1..] && a[k] > b[k]
    ensures Value(a) > Value(b)
  {
    ValueSplit(a, k + 1);
    ValueSplit(b, k + 1);
    ValuePrefix(a, k);
    ValuePrefix(b, k);
    ValueBound(b[..k]);
    assert a[..k + 1][..k] == a[..k] && b[..k + 1][..k] == b[..k];
    DigitDominates(Value(a[..k]), Value(b[..k]), a[k], b[k], Pow256(k));
  }

  lemma {:induction false} DigitDominates(la: nat, lb: nat, da: nat, db: nat, P: nat)
    requires lb < P && da > db
    ensures la + da * P > lb + db * P
  {
    MulMonotone(db + 1, da, P);
  }

  // ---------------------------------------------------------------------------
  // Zero, copy, extend

  /** mfZeroX: clears the `bytes` bytes of `d`. */
  method ZeroX(d: array<byte>, bytes: nat)
    requires bytes <= d.Length
    modifies d
    ensures d[..bytes] == Zeros(bytes) && Value(d[..bytes]) == 0
    ensures d[bytes..] == old(d[bytes..])
  {
    var k := bytes;
    while k > 0
      invariant 0 <= k <= bytes
      invariant forall j :: k <= j < bytes ==> d[j] == 0
      invariant forall j :: 0 <= j < k || bytes <= j < d.Length ==> d[j] == old(d[j])
    {
      k := k - 1;
      d[k] := 0;
    }
    assert d[..bytes] == Zeros(bytes);
    ValueZeros(bytes);
  }

  /** mfCopyX: copies `bytes` bytes of `s` into `d`, top byte first; `s` may be `d`. */
  method CopyX(s: array<byte>, d: array<byte>, bytes: nat)
    requires bytes <= s.Length && bytes <= d.Length
    modifies d
    ensures d[..bytes] == old(s[..bytes])
    ensures d[bytes..] == old(d[bytes..])
  {
    var k := bytes;
    while k > 0
      invariant 0 <= k <= bytes
      invariant forall j :: k <= j < bytes ==> d[j] == old(s[j])
      invariant forall j :: 0 <= j < k ==> s[j] == old(s[j])
      invariant forall j :: 0 <= j < k || bytes <= j < d.Length ==> d[j] == old(d[j])
    {
      k := k - 1;
      d[k] := s[k];
    }
  }

  /**
    mfUintExtX: widens the 32-bit `s` into `d`: zeroes the buffer, then writes
    the low min(bytes, 4) bytes of `s`.  Byte 0 is written even when `bytes` is 0.
  */
  method UintExtX(s: nat, d: array<byte>, bytes: nat)
    requires s < 0x1_0000_0000
    requires 1 <= d.Length && bytes <= d.Length
    modifies d
    ensures var w := if bytes == 0 then 1 else bytes;
            var m := if w < 4 then w else 4;
            d[..w] == ToBytes(s, m) + Zeros(w - m) && d[w..] == old(d[w..])
    ensures bytes > 0 ==> Value(d[..bytes]) == s % Pow256(if bytes < 4 then bytes else 4)
  {
    ZeroX(d, bytes);
    d[0] := s % 256;
    DivDiv(s, 256, 256);
    DivDiv(s, 256 * 256, 256);
    if bytes > 1 {
      d[1] := (s / 0x100) % 256;
      if bytes > 2 {
        d[2] := (s / 0x1_0000) % 256;
        if bytes > 3 {
          d[3] := (s / 0x100_0000) % 256;
        }
      }
    }
    ghost var w := if bytes == 0 then 1 else bytes;
    ExtendLayout(s, d[..w]);
  }

  lemma {:induction false} ExtendLayout(s: nat, x: seq<byte>)
    requires |x| >= 1
    requires x[0] == s % 256
    requires |x| > 1 ==> x[1] == (s / 0x100) % 256
    requires |x| > 2 ==> x[2] == (s / 0x1_0000) % 256
    requires |x| > 3 ==> x[3] == (s / 0x100_0000) % 256
    requires forall j :: 4 <= j < |x| ==> x[j] == 0
    ensures var m := if |x| < 4 then |x| else 4;
            x == ToBytes(s, m) + Zeros(|x| - m) && Value(x) == s % Pow256(m)
  {
    var m := if |x| < 4 then |x| else 4;
    ToBytesLimb(s);
    ToBytesPrefix(s, m, 4);
    assert x[..m] == ToBytes(s, 4)[..m];
    assert x == x[..m] + x[m..];
    assert x[m..] == Zeros(|x| - m);
    ValueZeroExtend(ToBytes(s, m), |x| - m);
    ToBytesMod(s, m);
  }

  // ---------------------------------------------------------------------------
  // Add and subtract

  /**
    mfAddUX: `d = a1 + a2` with the carry returned; `d` may be `a1` or `a2`
    because byte i of both inputs is read before byte i of `d` is written.
  */
  method AddUX(a1: array<byte>, a2: array<byte>, d: array<byte>, bytes: nat) returns (carry: int)
    requires bytes <= a1.Length && bytes <= a2.Length && bytes <= d.Length
    modifies d
    ensures carry == 0 || carry == 1
    ensures Value(d[..bytes]) + carry * Pow256(bytes) == Value(old(a1[..bytes])) + Value(old(a2[..bytes]))
    ensures carry == 1 <==> Value(old(a1[..bytes])) + Value(old(a2[..bytes])) >= Pow256(bytes)
    ensures d[bytes..] == old(d[bytes..])
  {
    ghost var A1, A2 := a1[..bytes], a2[..bytes];
    var t := 0;
    var i := 0;
    while i < bytes
      invariant 0 <= i <= bytes
      invariant t == 0 || t == 1
      invariant forall j :: i <= j < bytes ==> a1[j] == A1[j] && a2[j] == A2[j]
      invariant Value(d[..i]) + t * Pow256(i) == Value(A1[..i]) + Value(A2[..i])
      invariant d[bytes..] == old(d[bytes..])
    {
      var u := a1[i] + a2[i] + t;
      ghost var before := d[..i];
      d[i] := u % 256;
      assert d[..i + 1] == before + [u % 256];
      AddStep(before, A1, A2, t, u);
      t := u / 256;
      i := i + 1;
    }
    carry := if t == 0 then 0 else 1;
    assert A1[..bytes] == A1 && A2[..bytes] == A2;
    ValueBound(d[..bytes]);
  }

  lemma {:induction false} AddStep(low: seq<byte>, A1: seq<byte>, A2: seq<byte>, t: nat, u: nat)
    requires |low| < |A1| && |low| < |A2|
    requires Value(low) + t * Pow256(|low|) == Value(A1[..|low|]) + Value(A2[..|low|])
    requires u == A1[|low|] + A2[|low|] + t
    ensures Value(low + [u % 256]) + (u / 256) * Pow256(|low| + 1)
            == Value(A1[..|low| + 1]) + Value(A2[..|low| + 1])
  {
    var i := |low|;
    ValueAppend(low, u % 256);
    ValuePrefix(A1, i);
    ValuePrefix(A2, i);
    assert Pow256(i + 1) == 256 * Pow256(i);
    AddArith(Value(low), Value(low + [u % 256]), t, Pow256(i), Pow256(i + 1),
             Value(A1[..i]), Value(A1[..i + 1]), Value(A2[..i]), Value(A2[..i + 1]), A1[i], A2[i], u);
  }

  lemma {:induction false} AddArith(vl: int, vn: int, t: int, P: nat, P1: int, va1: int, vb1: int, va2: int, vb2: int, x1: int, x2: int, u: nat)
    requires vl + t * P == va1 + va2 && u == x1 + x2 + t && P1 == 256 * P
    requires vn == vl + (u % 256) * P && vb1 == va1 + x1 * P && vb2 == va2 + x2 * P
    ensures vn + (u / 256) * P1 == vb1 + vb2
  {
    CarryStep(u, P);
    Distrib(P, x1 + x2, t);
    Distrib(P, x1, x2);
  }

  /**
    The borrow chain of mfSubstractUX: byte i borrowed from byte i + 1, so the
    bytes above i are decremented until one of them was non-zero; a zero byte
    wraps to 255.  When the chain runs off the top, `underflow` stays 1.
  */
  method PropagateBorrow(lo: array<byte>, i: nat, bytes: nat) returns (underflow: int)
    requires i < bytes <= lo.Length
    modifies lo
    ensures underflow == 0 || underflow == 1
    ensures lo[..i + 1] == old(lo[..i + 1]) && lo[bytes..] == old(lo[bytes..])
    ensures Value(lo[..bytes]) + Pow256(i + 1) == old(Value(lo[..bytes])) + (if underflow == 1 then Pow256(bytes) else 0)
    ensures underflow == 1 ==> forall k :: i < k < bytes ==> lo[k] == 255
  {
    ghost var L := lo[..bytes];
    var j := i + 1;
    underflow := 1;
    while underflow == 1 && j < bytes
      invariant i + 1 <= j <= bytes
      invariant underflow == 0 || underflow == 1
      invariant lo[..i + 1] == old(lo[..i + 1]) && lo[bytes..] == old(lo[bytes..])
      invariant underflow == 1 ==> Value(lo[..bytes]) + Pow256(i + 1) == Value(L) + Pow256(j)
      invariant underflow == 1 ==> forall k :: i < k < j ==> lo[k] == 255
      invariant underflow == 1 ==> forall k :: j <= k < bytes ==> lo[k] == L[k]
      invariant underflow == 0 ==> Value(lo[..bytes]) + Pow256(i + 1) == Value(L)
      decreases bytes - j + underflow
    {
      ghost var cur := lo[..bytes];
      if lo[j] > 0 {
        lo[j] := lo[j] - 1;
        underflow := 0;
        assert lo[..bytes] == cur[j := cur[j] - 1];
        BorrowStops(cur, L, j, Pow256(i + 1));
      } else {
        lo[j] := 255;  // 0 - 1 as an unsigned char
        assert lo[..bytes] == cur[j := 255];
        BorrowPasses(cur, L, j, Pow256(i + 1));
        j := j + 1;
      }
    }
  }

  /** A non-zero byte absorbs the borrow. */
  lemma {:induction false} BorrowStops(cur: seq<byte>, L: seq<byte>, j: nat, X: int)
    requires j < |cur| && cur[j] > 0 && Value(cur) + X == Value(L) + Pow256(j)
    ensures Value(cur[j := cur[j] - 1]) + X == Value(L)
  {
    ValueUpdate(cur, j, cur[j] - 1);
  }

  /** A zero byte becomes 255 and passes the borrow on to the byte above. */
  lemma {:induction false} BorrowPasses(cur: seq<byte>, L: seq<byte>, j: nat, X: int)
    requires j < |cur| && cur[j] == 0 && Value(cur) + X == Value(L) + Pow256(j)
    ensures Value(cur[j := 255]) + X == Value(L) + Pow256(j + 1)
  {
    ValueUpdate(cur, j, 255);
    assert Pow256(j + 1) == 256 * Pow256(j);
  }

  /**
    mfSubstractUX: `d = s1 - s2` modulo 2^(8 * bytes), returning 1 when s2 > s1.
    The borrows go to a scratch copy of s1, which is copied to `d` at the end,
    so `d` may be `s1` or `s2`.
  */
  method SubtractUX(s1: array<byte>, s2: array<byte>, d: array<byte>, bytes: nat) returns (underflow: int)
    requires bytes <= s1.Length && bytes <= s2.Length && bytes <= d.Length
    modifies d
    ensures underflow == 0 || underflow == 1
    ensures underflow == 1 <==> Value(old(s2[..bytes])) > Value(old(s1[..bytes]))
    ensures Value(d[..bytes]) == (Value(old(s1[..bytes])) - Value(old(s2[..bytes]))) % Pow256(bytes)
    ensures d[bytes..] == old(d[bytes..])
  {
    ghost var S1, S2 := s1[..bytes], s2[..bytes];
    var lo := new byte[bytes];
    CopyX(s1, lo, bytes);
    assert lo[..bytes] == S1;
    var perma := 0;
    var i := 0;
    while i < bytes
      invariant 0 <= i <= bytes
      invariant perma == 0 || perma == 1
      invariant s2[..bytes] == S2 && d[..] == old(d[..])
      invariant Value(lo[..bytes]) + Value(S2[..i]) == Value(S1) + (if perma == 1 then Pow256(bytes) else 0)
      invariant perma == 1 ==> forall j :: i <= j < bytes ==> lo[j] == 255
    {
      var sb := s2[i];
      assert sb == S2[i];
      ghost var pre := lo[..bytes];
      var u := SubtractByte(lo, i, bytes, sb);
      if perma == 1 {
        assert pre[i] == 255;
        forall j | i + 1 <= j < bytes
          ensures lo[j] == 255
        {
          assert lo[j] == lo[i + 1..bytes][j - i - 1] == pre[j];
        }
      }
      if u == 1 {
        perma := 1;
      }
      ValuePrefix(S2, i);
      assert Value(S2[..i + 1]) == Value(S2[..i]) + sb * Pow256(i);
      i := i + 1;
    }
    assert S2[..bytes] == S2;
    ValueBound(lo[..bytes]);
    SubtractResult(Value(lo[..bytes]), Value(S1), Value(S2), Pow256(bytes), perma);
    CopyX(lo, d, bytes);
    underflow := perma;
  }

  /**
    One step of the mfSubstractUX loop: byte i of the scratch buffer `lo` loses
    `sb`, borrowing from the bytes above it when `sb` is the larger.  Returns 1
    when the borrow ran off the top.
  */
  method SubtractByte(lo: array<byte>, i: nat, bytes: nat, sb: byte) returns (u: int)
    requires i < bytes <= lo.Length
    modifies lo
    ensures u == 0 || u == 1
    ensures lo[..i] == old(lo[..i]) && lo[bytes..] == old(lo[bytes..])
    ensures Value(lo[..bytes]) + sb * Pow256(i) == old(Value(lo[..bytes])) + (if u == 1 then Pow256(bytes) else 0)
    ensures u == 1 ==> forall j :: i < j < bytes ==> lo[j] == 255
    ensures sb <= old(lo[i]) ==> u == 0 && lo[i + 1..bytes] == old(lo[i + 1..bytes])
  {
    var lb: byte := lo[i];
    ghost var before := lo[..bytes];
    if sb > lb {
      lb := lb - sb + 256;  // unsigned char wrap-around
      u := PropagateBorrow(lo, i, bytes);
      ghost var mid := lo[..bytes];
      lo[i] := lb;
      assert lo[..bytes] == mid[i := lb];
      BorrowUpdate(before, mid, i, sb, if u == 1 then Pow256(bytes) else 0);
    } else {
      u := 0;
      lb := lb - sb;
      lo[i] := lb;
      assert lo[..bytes] == before[i := lb];
      UpdateDown(before, i, sb);
    }
  }

  lemma {:induction false} SubtractResult(v: int, v1: int, v2: int, P: int, perma: int)
    requires 0 <= v < P && (perma == 0 || perma == 1)
    requires v + v2 == v1 + (if perma == 1 then P else 0)
    ensures perma == 1 <==> v2 > v1
    ensures v == (v1 - v2) % P
  {
    if perma == 1 {
      DivModUnique(v1 - v2, P, -1, v);
    } else {
      DivModUnique(v1 - v2, P, 0, v);
    }
  }

  /** Byte i with a borrow taken from above: byte i gains 256 and then loses `sb`. */
  lemma {:induction false} BorrowUpdate(before: seq<byte>, mid: seq<byte>, i: nat, sb: byte, u: int)
    requires |before| == |mid| && i < |mid| && mid[i] == before[i] < sb
    requires Value(mid) + Pow256(i + 1) == Value(before) + u
    ensures Value(mid[i := before[i] - sb + 256]) + sb * Pow256(i) == Value(before) + u
  {
    ValueUpdate(mid, i, before[i] - sb + 256);
    BorrowArith(Value(mid), Value(mid[i := before[i] - sb + 256]), Pow256(i), Pow256(i + 1), sb, before[i]);
  }

  lemma {:induction false} BorrowArith(vm: int, va: int, X: int, X1: int, sb: int, b: int)
    requires X1 == 256 * X
    requires va == vm + ((b - sb + 256) - b) * X
    ensures va + sb * X == vm + X1
  {
  }

  /** Byte i lowered by `sb` without a borrow. */
  lemma {:induction false} UpdateDown(s: seq<byte>, i: nat, sb: byte)
    requires i < |s| && sb <= s[i]
    ensures Value(s[i := s[i] - sb]) + sb * Pow256(i) == Value(s)
  {
    ValueUpdate(s, i, s[i] - sb);
    assert (s[i] - sb - s[i]) * Pow256(i) == -(sb * Pow256(i));
  }

  // ---------------------------------------------------------------------------
  // Shifts

  /**
    mfShiftRightXBy1: `x >>= 1`, from byte 0 upwards.  Byte 0 is shifted even
    when `bytes` is 0, so the routine acts on w = max(bytes, 1) bytes.
  */
  method ShiftRightXBy1(x: array<byte>, bytes: nat)
    requires 1 <= x.Length && bytes <= x.Length
    modifies x
    ensures var w := if bytes == 0 then 1 else bytes;
            x[..w] == ShiftRightSeq(old(x[..w])) && Value(x[..w]) == old(Value(x[..w])) / 2 &&
            x[w..] == old(x[w..])
  {
    var w := if bytes == 0 then 1 else bytes;
    ghost var X := x[..w];
    var k := 0;
    while k + 1 < w
      invariant 0 <= k < w
      invariant forall j :: 0 <= j < k ==> x[j] == ShiftRightSeq(X)[j]
      invariant forall j :: k <= j < w ==> x[j] == X[j]
      invariant x[w..] == old(x[w..])
    {
      x[k] := x[k] / 2 + (x[k + 1] % 2) * 128;
      k := k + 1;
    }
    x[k] := x[k] / 2;
    assert x[..w] == ShiftRightSeq(X);
    ShiftRightValue(X);
  }

  /**
    mfShiftLeftXBy1: `x = (x << 1) mod 2^(8 * bytes)`, from the top byte down.
    Byte 0 is shifted even when `bytes` is 0.
  */
  method ShiftLeftXBy1(x: array<byte>, bytes: nat)
    requires 1 <= x.Length && bytes <= x.Length
    modifies x
    ensures var w := if bytes == 0 then 1 else bytes;
            x[..w] == ShiftLeftSeqIn(old(x[..w]), 0) && Value(x[..w]) == (2 * old(Value(x[..w]))) % Pow256(w) &&
            x[w..] == old(x[w..])
  {
    var w := if bytes == 0 then 1 else bytes;
    ghost var X := x[..w];
    var k := w;
    while k > 1
      invariant 1 <= k <= w
      invariant forall j :: k <= j < w ==> x[j] == ShiftLeftSeqIn(X, 0)[j]
      invariant forall j :: 0 <= j < k ==> x[j] == X[j]
      invariant x[w..] == old(x[w..])
    {
      k := k - 1;
      x[k] := 2 * (x[k] % 128) + x[k - 1] / 128;
    }
    x[0] := 2 * (x[0] % 128);
    assert x[..w] == ShiftLeftSeqIn(X, 0);
    ShiftLeftInValue(X, 0);
  }

  /** mfShift128Right32: moves the three upper 32-bit limbs of a 128-bit value down one limb. */
  method Shift128Right32(x: array<byte>)
    requires x.Length == 16
    modifies x
    ensures x[..] == old(x[4..]) + Zeros(4)
    ensures Value(x[..]) == old(Value(x[..])) / Pow256(4)
  {
    ghost var X := x[..];
    forall j | 0 <= j < 4 {
      x[j] := x[j + 4];
    }
    forall j | 4 <= j < 8 {
      x[j] := x[j + 4];
    }
    forall j | 8 <= j < 12 {
      x[j] := x[j + 4];
    }
    forall j | 12 <= j < 16 {
      x[j] := 0;
    }
    assert x[..] == X[4..] + Zeros(4);
    DropLowLimb(X);
  }

  /** Dropping the low four bytes and refilling the top with zeros divides by 2^32. */
  lemma {:induction false} DropLowLimb(X: seq<byte>)
    requires |X| == 16
    ensures Value(X[4..] + Zeros(4)) == Value(X) / Pow256(4)
  {
    ValueZeroExtend(X[4..], 4);
    ValueSplit(X, 4);
    ValueBound(X[..4]);
    HighDigit(Value(X), Value(X[..4]), Value(X[4..]), Pow256(4));
  }

  // ---------------------------------------------------------------------------
  // Compare, zero test, OR

  /** mfCompareUX: compares from the top byte down and stops at the first difference. */
  method CompareUX(e: array<byte>, r: array<byte>, bytes: nat) returns (res: Comparison)
    requires bytes <= e.Length && bytes <= r.Length
    ensures res == Greater <==> Value(e[..bytes]) > Value(r[..bytes])
    ensures res == Smaller <==> Value(e[..bytes]) < Value(r[..bytes])
    ensures res == Equal <==> e[..bytes] == r[..bytes]
  {
    var k := bytes;
    while k > 0
      invariant 0 <= k <= bytes
      invariant e[k..bytes] == r[k..bytes]
    {
      k := k - 1;
      if e[k] > r[k] {
        assert e[..bytes][k + 1..] == e[k + 1..bytes];
        assert r[..bytes][k + 1..] == r[k + 1..bytes];
        TopDifferingByte(e[..bytes], r[..bytes], k);
        return Greater;
      }
      if e[k] < r[k] {
        assert e[..bytes][k + 1..] == e[k + 1..bytes];
        assert r[..bytes][k + 1..] == r[k + 1..bytes];
        TopDifferingByte(r[..bytes], e[..bytes], k);
        return Smaller;
      }
      assert e[k..bytes] == [e[k]] + e[k + 1..bytes];
      assert r[k..bytes] == [r[k]] + r[k + 1..bytes];
    }
    assert e[..bytes] == e[0..bytes];
    assert r[..bytes] == r[0..bytes];
    return Equal;
  }

  /** mfIsZeroX: ORs every byte together; 1 when the result is 0, else 0. */
  method IsZeroX(e: array<byte>, bytes: nat) returns (z: int)
    requires bytes <= e.Length
    ensures z == 0 || z == 1
    ensures z == 1 <==> Value(e[..bytes]) == 0
  {
    var eb: byte := 0;
    var k := bytes;
    while k > 0
      invariant 0 <= k <= bytes
      invariant eb == 0 <==> forall j :: k <= j < bytes ==> e[j] == 0
    {
      k := k - 1;
      OrZero(eb, e[k]);
      eb := OrBytes(eb, e[k]);
    }
    z := if eb == 0 then 1 else 0;
    ValueZeroIff(e[..bytes]);
  }

  /** mforX: `d = s1 | s2` byte by byte; `d` may be either input. */
  method OrX(s1: array<byte>, s2: array<byte>, d: array<byte>, bytes: nat)
    requires bytes <= s1.Length && bytes <= s2.Length && bytes <= d.Length
    modifies d
    ensures d[..bytes] == OrSeq(old(s1[..bytes]), old(s2[..bytes]))
    ensures Value(d[..bytes]) == Or(old(Value(s1[..bytes])), old(Value(s2[..bytes])))
    ensures d[bytes..] == old(d[bytes..])
  {
    ghost var S1, S2 := s1[..bytes], s2[..bytes];
    var k := bytes;
    while k > 0
      invariant 0 <= k <= bytes
      invariant forall j :: 0 <= j < k ==> s1[j] == S1[j] && s2[j] == S2[j]
      invariant forall j :: k <= j < bytes ==> d[j] == OrBytes(S1[j], S2[j])
      invariant forall j :: 0 <= j < k || bytes <= j < d.Length ==> d[j] == old(d[j])
    {
      k := k - 1;
      d[k] := OrBytes(s1[k], s2[k]);
    }
    assert d[..bytes] == OrSeq(S1, S2);
    OrSeqValue(S1, S2);
  }
}
