/**
  mfLicensingInitializePrivateKeyFromPrime: read a decimal numeral into a
  256-bit private key.

  Each character must be a digit; the key so far is multiplied by 10 with
  mfMultiplyU256 and the digit is added with mfAddU256.  A carry out of the
  addition stops the parse with -EOVERFLOW, a non-digit with -EINVAL, and a
  parsed number whose top byte is 0 or that is even is refused with -EINVAL.
  The key is the number the 32 bytes of `key->data` hold.
*/
module PrimeKey {
  import opened WideValue
  import opened Vector

  /** 2^248: the weight of the key's top byte. */
  const TopByteWeight: nat := 0x100_0000_0000_0000_0000_0000_0000_0000_0000_0000_0000_0000_0000_0000_0000_0000

  /** The routine's result: 0, -EINVAL or -EOVERFLOW. */
  datatype ParseStatus = Parsed | InvalidArgument | Overflow

  predicate IsDigit(c: byte)
  {
    '0' as int <= c <= '9' as int
  }

  predicate AllDigits(s: seq<byte>)
  {
    forall i :: 0 <= i < |s| ==> IsDigit(s[i])
  }

  /** The number a string of ASCII digits denotes, most significant digit first. */
  function DecimalValue(s: seq<byte>): nat
    requires AllDigits(s)
  {
    if |s| == 0 then 0 else 10 * DecimalValue(s[..|s| - 1]) + (s[|s| - 1] - '0' as int)
  }

  /** The shortest decimal numeral of n. */
  function ToDecimal(n: nat): (s: seq<byte>)
    ensures |s| >= 1 && AllDigits(s)
  {
    if n < 10 then ['0' as int + n] else ToDecimal(n / 10) + ['0' as int + n % 10]
  }

  /** Reading a numeral gives back the number. */
  lemma {:induction false} DecimalRoundTrip(n: nat)
    ensures DecimalValue(ToDecimal(n)) == n
  {
    var s := ToDecimal(n);
    if n >= 10 {
      DecimalRoundTrip(n / 10);
      assert s[..|s| - 1] == ToDecimal(n / 10);
    }
  }

  /** The state of the parse after a prefix: still reading with the key so far, or stopped. */
  datatype Scan = Reading(key: nat) | Stopped(overflow: bool, key: nat)

  /** One character, as the loop body handles it. */
  function Step(key: nat, c: byte): Scan
  {
    if !IsDigit(c) then Stopped(false, key)
    else
      var product := (key * 10) % Modulus256;
      var sum := product + (c - '0' as int);
      if sum >= Modulus256 then Stopped(true, sum - Modulus256) else Reading(sum)
  }

  /** The parse of a whole string, up to the final checks. */
  function ScanDigits(s: seq<byte>): Scan
  {
    if |s| == 0 then Reading(0)
    else
      match ScanDigits(s[..|s| - 1])
      case Stopped(o, k) => Stopped(o, k)
      case Reading(k) => Step(k, s[|s| - 1])
  }

  /** mfLicensingInitializePrivateKeyFromPrime as written: the status and the key's value. */
  function ParsePrime(s: seq<byte>): (ParseStatus, nat)
  {
    match ScanDigits(s)
    case Stopped(o, k) => (if o then Overflow else InvalidArgument, k)
    case Reading(k) => (if k < TopByteWeight || k % 2 == 0 then InvalidArgument else Parsed, k)
  }

  lemma {:induction false} ModTimesTen(a: nat, x: nat)
    requires (10 * (a % Modulus256)) % Modulus256 + x < Modulus256
    ensures (10 * (a % Modulus256)) % Modulus256 + x == (10 * a + x) % Modulus256
  {
    var M := Modulus256;
    var q := a / M;
    assert a == q * M + a % M;
    assert 10 * a + x == (10 * q) * M + 10 * (a % M) + x;
    var p := 10 * (a % M);
    var r := p % M;
    assert p == (p / M) * M + r;
    assert 10 * a + x == (10 * q + p / M) * M + (r + x);
    MulDivCancel(10 * q + p / M, r + x, M);
  }

  /** While the parse is reading, the digits so far are all digits and the key is their value modulo 2^256. */
  lemma {:induction false} ReadingIsModular(s: seq<byte>)
    requires ScanDigits(s).Reading?
    ensures AllDigits(s) && ScanDigits(s).key == DecimalValue(s) % Modulus256
  {
    if |s| > 0 {
      var p := s[..|s| - 1];
      ReadingIsModular(p);
      assert forall i :: 0 <= i < |p| ==> p[i] == s[i];
      var c := s[|s| - 1];
      ModTimesTen(DecimalValue(p), c - '0' as int);
    }
  }

  /** Once the parse has stopped, the rest of the string is not read. */
  lemma {:induction false} StoppedStaysStopped(s: seq<byte>, i: nat)
    requires i <= |s| && ScanDigits(s[..i]).Stopped?
    ensures ScanDigits(s) == ScanDigits(s[..i])
    decreases |s| - i
  {
    if i < |s| {
      assert s[..i + 1][..i] == s[..i];
      StoppedStaysStopped(s, i + 1);
    } else {
      assert s[..i] == s;
    }
  }

  /** A numeral whose value fits in 256 bits is read exactly. */
  lemma {:induction false} ScanExact(s: seq<byte>)
    requires AllDigits(s) && DecimalValue(s) < Modulus256
    ensures ScanDigits(s) == Reading(DecimalValue(s))
  {
    if |s| > 0 {
      var p := s[..|s| - 1];
      assert forall i :: 0 <= i < |p| ==> p[i] == s[i];
      ScanExact(p);
    }
  }

  /**
    A successful parse read only digits and yields a key whose top byte is not
    0 and which is odd: the number modulo 2^256.
  */
  lemma {:induction false} ParsedKey(s: seq<byte>)
    requires ParsePrime(s).0 == Parsed
    ensures AllDigits(s)
    ensures ParsePrime(s).1 == DecimalValue(s) % Modulus256
    ensures TopByteWeight <= ParsePrime(s).1 < Modulus256 && ParsePrime(s).1 % 2 == 1
  {
    ReadingIsModular(s);
  }

  /** For a numeral below 2^256 the key is its value, and it is accepted exactly when its top byte is set and it is odd. */
  lemma {:induction false} ParseInRange(s: seq<byte>)
    requires AllDigits(s) && DecimalValue(s) < Modulus256
    ensures ParsePrime(s).1 == DecimalValue(s)
    ensures ParsePrime(s).0 == Parsed <==> DecimalValue(s) >= TopByteWeight && DecimalValue(s) % 2 == 1
    ensures ParsePrime(s).0 != Overflow
  {
    ScanExact(s);
  }

  /** A string holding a character other than a digit is refused. */
  lemma {:induction false} ParseNonDigit(s: seq<byte>)
    requires !AllDigits(s)
    ensures ParsePrime(s).0 != Parsed
  {
    if ParsePrime(s).0 == Parsed {
      ParsedKey(s);
    }
  }

  /** 3 * 2^255 + 1, a 78-digit odd number above 2^256. */
  const WrappingNumber: nat := 0x1_8000_0000_0000_0000_0000_0000_0000_0000_0000_0000_0000_0000_0000_0000_0000_0001

  lemma {:induction false} WrapArith()
    ensures WrappingNumber / 10 < Modulus256
    ensures ((WrappingNumber / 10) * 10) % Modulus256 + WrappingNumber % 10 == WrappingNumber - Modulus256
    ensures TopByteWeight <= WrappingNumber - Modulus256 < Modulus256 && (WrappingNumber - Modulus256) % 2 == 1
  {
  }

  /**
    The multiply's overflow is ignored, so the numeral of 3 * 2^255 + 1 is
    accepted as the key 2^255 + 1 instead of being refused with -EOVERFLOW.
  */
  lemma {:induction false} ParseWrapsAround()
    ensures DecimalValue(ToDecimal(WrappingNumber)) == WrappingNumber
    ensures ParsePrime(ToDecimal(WrappingNumber)) == (Parsed, WrappingNumber - Modulus256)
    ensures WrappingNumber - Modulus256 != WrappingNumber
  {
    var n := WrappingNumber;
    var s := ToDecimal(n);
    var p := ToDecimal(n / 10);
    DecimalRoundTrip(n);
    DecimalRoundTrip(n / 10);
    WrapArith();
    ScanExact(p);
    assert s[..|s| - 1] == p;
    var c := s[|s| - 1];
    assert c == '0' as int + n % 10;
    assert ScanDigits(s) == Step(n / 10, c);
  }

  // ---------------------------------------------------------------------------
  // The parse with the multiply's overflow checked as well

  function StepChecked(key: nat, c: byte): Scan
  {
    if !IsDigit(c) then Stopped(false, key)
    else if key * 10 >= Modulus256 then Stopped(true, (key * 10) % Modulus256)
    else
      var sum := key * 10 + (c - '0' as int);
      if sum >= Modulus256 then Stopped(true, sum - Modulus256) else Reading(sum)
  }

  function ScanDigitsChecked(s: seq<byte>): Scan
  {
    if |s| == 0 then Reading(0)
    else
      match ScanDigitsChecked(s[..|s| - 1])
      case Stopped(o, k) => Stopped(o, k)
      case Reading(k) => StepChecked(k, s[|s| - 1])
  }

  function ParsePrimeChecked(s: seq<byte>): (ParseStatus, nat)
  {
    match ScanDigitsChecked(s)
    case Stopped(o, k) => (if o then Overflow else InvalidArgument, k)
    case Reading(k) => (if k < TopByteWeight || k % 2 == 0 then InvalidArgument else Parsed, k)
  }

  /** With both overflows checked, a numeral is read exactly, and one of 2^256 or more is refused with -EOVERFLOW. */
  lemma {:induction false} ScanCheckedExact(s: seq<byte>)
    requires AllDigits(s)
    ensures DecimalValue(s) < Modulus256 ==> ScanDigitsChecked(s) == Reading(DecimalValue(s))
    ensures DecimalValue(s) >= Modulus256 ==> ScanDigitsChecked(s).Stopped? && ScanDigitsChecked(s).overflow
  {
    if |s| > 0 {
      var p := s[..|s| - 1];
      assert forall i :: 0 <= i < |p| ==> p[i] == s[i];
      ScanCheckedExact(p);
    }
  }

  /** The checked parse accepts exactly the numerals of acceptable keys, and the key is their value. */
  lemma {:induction false} ParsePrimeCheckedExact(s: seq<byte>)
    requires AllDigits(s)
    ensures ParsePrimeChecked(s).0 == Parsed <==>
              TopByteWeight <= DecimalValue(s) < Modulus256 && DecimalValue(s) % 2 == 1
    ensures ParsePrimeChecked(s).0 == Parsed ==> ParsePrimeChecked(s).1 == DecimalValue(s)
    ensures DecimalValue(s) >= Modulus256 ==> ParsePrimeChecked(s).0 == Overflow
  {
    ScanCheckedExact(s);
  }

  // ---------------------------------------------------------------------------
  // The routine

  /** mfLicensingInitializePrivateKeyFromPrime over the bytes before the string's terminator. */
  method InitializePrivateKeyFromPrime(s: CString) returns (status: ParseStatus, key: nat)
    ensures (status, key) == ParsePrime(s)
  {
    key := 0;
    var i := 0;
    while i < |s|
      invariant 0 <= i <= |s| && ScanDigits(s[..i]) == Reading(key)
    {
      var c := s[i];
      assert s[..i + 1][..i] == s[..i];
      i := i + 1;
      if '0' as int <= c <= '9' as int {
        var x := c - '0' as int;
        key := (key * 10) % Modulus256;
        if key + x >= Modulus256 {
          key := key + x - Modulus256;
          StoppedStaysStopped(s, i);
          return Overflow, key;
        }
        key := key + x;
      } else {
        StoppedStaysStopped(s, i);
        return InvalidArgument, key;
      }
    }
    assert s[..i] == s;
    if key < TopByteWeight || key % 2 == 0 {
      return InvalidArgument, key;
    }
    return Parsed, key;
  }
}
