/**
  License generation and validation (mfLicensingGenerateLicense and
  mfLicensingValidateLicense).

  A license for an index is built from key_length characters of the shuffled
  alphabet.  Its bits_in_key logical bits are the index_bits low bits of the
  index followed by the low bits of a validator derived from the index, the
  digest, the salt and the private key; logical bit i is stored at slot
  bits_ordering[i], the slots are read as a binary number (slot 0 most
  significant), and that number is written in base encoding_base, least
  significant digit first.  Validation decodes a candidate, reads the index
  back out of its bits, generates the license for that index and compares.

  The 256-bit buffers of these routines (validator, binary key, salt, the
  products and quotients) are numbers here; the byte-buffer routines that
  compute them are modelled in the modules BufferOps, Multiply and Divide.
*/
module License {
  import opened WideValue
  import opened Drand48
  import opened Vector
  import opened Codec

  /** `unsigned int`. */
  type u32 = x: int | 0 <= x < 0x1_0000_0000

  /** The 128-bit `md5hash` of an mfLicensingDigest, as a number. */
  type Digest = x: int | 0 <= x < 0x1_0000_0000_0000_0000_0000_0000_0000_0000

  const WordModulus: nat := 0x1_0000_0000

  /** Bit k of x: (x >> k) & 1. */
  function Bit(x: nat, k: nat): (b: bit)
  {
    (x / Pow2(k)) % 2
  }

  /** Generation divides by the alphabet's size, so a vector with an alphabet must not have an empty one. */
  predicate NonEmptyAlphabet(c: Config)
  {
    c.codedChars.Some? ==> |c.codedChars.value| >= 1
  }

  // ---------------------------------------------------------------------------
  // The validator

  /**
    The high 256 bits of salt * (digest * index block), modulo the private key.
    With a zero key the division fails and the validator keeps its initial 0.
  */
  function Validator(c: Config, digest: Digest, index: u32): nat
    requires c.privateKey.Some?
  {
    var key := Value(c.privateKey.value);
    var mixed := digest * Randomize128(index);
    var pivotHigh := (Randomize256(c.saltSeed) * mixed) / Modulus256;
    if key == 0 then 0 else pivotHigh % key
  }

  /** The validator is below the private key, and so below 2^256. */
  lemma {:induction false} ValidatorBound(c: Config, digest: Digest, index: u32)
    requires c.privateKey.Some?
    ensures Value(c.privateKey.value) >= 1 ==> Validator(c, digest, index) < Value(c.privateKey.value)
    ensures Validator(c, digest, index) < Modulus256
  {
    var key := c.privateKey.value;
    ValueBound(key);
    Modulus256Power();
  }

  // ---------------------------------------------------------------------------
  // Placing the bits

  /** Logical bit i of the key: an index bit below index_bits, a validator bit above. */
  function LogicalBit(index: nat, validator: nat, indexBits: nat, i: nat): bit
  {
    if i < indexBits then Bit(index, i) else Bit(validator, i - indexBits)
  }

  /**
    The `bits` buffer after the first k logical bits have been stored, logical
    bit i at slot order[i].  The buffer starts cleared.
  */
  function Place(order: seq<nat>, index: nat, validator: nat, indexBits: nat, n: nat, k: nat): (s: seq<bit>)
    requires k <= |order| && forall j :: 0 <= j < |order| ==> order[j] < n
    ensures |s| == n
  {
    if k == 0 then seq(n, _ => 0)
    else Place(order, index, validator, indexBits, n, k - 1)[order[k - 1] := LogicalBit(index, validator, indexBits, k - 1)]
  }

  /** Logical bit j sits at slot order[j], since the ordering never names a slot twice. */
  lemma {:induction false} PlaceRead(order: seq<nat>, index: nat, validator: nat, indexBits: nat, n: nat, k: nat, j: nat)
    requires IsOrdering(order, n) && k <= n && j < k
    ensures Place(order, index, validator, indexBits, n, k)[order[j]] == LogicalBit(index, validator, indexBits, j)
  {
    if j < k - 1 {
      assert order[j] != order[k - 1];
      PlaceRead(order, index, validator, indexBits, n, k - 1, j);
    }
  }

  /** The flat binary key: the slots read as a binary number, slot 0 the most significant. */
  function Flat(bits: seq<bit>): nat
  {
    if |bits| == 0 then 0 else 2 * Flat(bits[..|bits| - 1]) + bits[|bits| - 1]
  }

  lemma {:induction false} FlatBound(bits: seq<bit>)
    ensures Flat(bits) < Pow2(|bits|)
  {
    if |bits| > 0 {
      FlatBound(bits[..|bits| - 1]);
    }
  }

  /** A key with a set slot is not 0. */
  lemma {:induction false} FlatPositive(bits: seq<bit>, p: nat)
    requires p < |bits| && bits[p] == 1
    ensures Flat(bits) >= 1
  {
    if p < |bits| - 1 {
      FlatPositive(bits[..|bits| - 1], p);
    }
  }

  // ---------------------------------------------------------------------------
  // Encoding

  /** The key written in base |alphabet| with `count` characters, least significant digit first. */
  function Encode(b: nat, alphabet: seq<byte>, count: nat): (s: seq<byte>)
    requires |alphabet| >= 1
    ensures |s| == count
    ensures forall i :: 0 <= i < count ==> s[i] in alphabet
  {
    if count == 0 then [] else [alphabet[b % |alphabet|]] + Encode(b / |alphabet|, alphabet, count - 1)
  }

  /** What is left of the key after `count` divisions by the base. */
  function Leftover(b: nat, base: nat, count: nat): nat
    requires base >= 1
  {
    if count == 0 then b else Leftover(b / base, base, count - 1)
  }

  /** A key below base^count is consumed completely by count divisions. */
  lemma {:induction false} LeftoverZero(b: nat, base: nat, count: nat)
    requires base >= 1 && b < Power(base, count)
    ensures Leftover(b, base, count) == 0
  {
    if count > 0 {
      QuotientBounds(b, base);
      if b / base >= Power(base, count - 1) {
        MulMonotone(Power(base, count - 1), b / base, base);
      }
      LeftoverZero(b / base, base, count - 1);
    }
  }

  // ---------------------------------------------------------------------------
  // Generation

  /** The slots of the license for an index, with the codec derived from the vector. */
  function KeyBits(c: Config, digest: Digest, index: u32): (s: seq<bit>)
    requires DeriveCodec(c).Some?
    ensures |s| == DeriveCodec(c).value.bitsInKey
  {
    var codec := DeriveCodec(c).value;
    var n := codec.bitsInKey;
    DeriveCodecConditions(c);
    DeriveCodecOrdering(c);
    Place(codec.bitsOrdering, index, Validator(c, digest, index), c.indexBits, n, n)
  }

  /**
    mfLicensingGenerateLicense: the license, or None where the routine returns
    null (no codec, an index of more than index_bits bits, or a key of 0).
  */
  function GenerateSpec(c: Config, digest: Digest, index: u32): (r: Option<seq<byte>>)
    requires NonEmptyAlphabet(c)
    ensures r.Some? ==> forall i :: 0 <= i < |r.value| ==> r.value[i] != 0
  {
    match DeriveCodec(c)
    case None => None
    case Some(codec) =>
      if index >= Pow2(c.indexBits) then None
      else
        DeriveCodecConditions(c);
        DeriveCodecCharacters(c);
        var b := Flat(KeyBits(c, digest, index));
        if b == 0 then None
        else
          var alphabet := codec.codecCharacters;
          if Leftover(b, |alphabet|, c.keyLength) != 0 then None
          else
            var s := Encode(b, alphabet, c.keyLength);
            CodecCharactersNonZero(c, s);
            Some(s)
  }

  /** Characters of the shuffled alphabet are characters of the vector's alphabet, so none is 0. */
  lemma {:induction false} CodecCharactersNonZero(c: Config, s: seq<byte>)
    requires DeriveCodec(c).Some?
    requires forall i :: 0 <= i < |s| ==> s[i] in DeriveCodec(c).value.codecCharacters
    ensures forall i :: 0 <= i < |s| ==> s[i] != 0
  {
    DeriveCodecCharacters(c);
    var chars := c.codedChars.value;
    forall i | 0 <= i < |s|
      ensures s[i] != 0
    {
      assert s[i] in multiset(chars);
    }
  }

  /** The key of an index always fits in key_length characters, so the "binary_key should be 0" check never fails. */
  lemma {:induction false} GenerateConsumesKey(c: Config, digest: Digest, index: u32)
    requires NonEmptyAlphabet(c) && DeriveCodec(c).Some?
    ensures Leftover(Flat(KeyBits(c, digest, index)), DeriveCodec(c).value.encodingBase, c.keyLength) == 0
  {
    var codec := DeriveCodec(c).value;
    DeriveCodecConditions(c);
    DeriveCodecFits(c);
    var bits := KeyBits(c, digest, index);
    FlatBound(bits);
    LeftoverZero(Flat(bits), codec.encodingBase, c.keyLength);
  }

  /**
    Generation succeeds exactly when the codec can be derived, the index fits
    in index_bits bits and the assembled key is not 0; the license then has
    key_length characters of the shuffled alphabet.
  */
  lemma {:induction false} GenerateOutcome(c: Config, digest: Digest, index: u32)
    requires NonEmptyAlphabet(c)
    ensures GenerateSpec(c, digest, index).Some? <==>
              DeriveCodec(c).Some? && index < Pow2(c.indexBits) &&
              Flat(KeyBits(c, digest, index)) != 0
    ensures GenerateSpec(c, digest, index).Some? ==>
              |GenerateSpec(c, digest, index).value| == c.keyLength &&
              forall i :: 0 <= i < c.keyLength ==>
                GenerateSpec(c, digest, index).value[i] in DeriveCodec(c).value.codecCharacters
  {
    if DeriveCodec(c).Some? {
      DeriveCodecCharacters(c);
      DeriveCodecConditions(c);
      GenerateConsumesKey(c, digest, index);
    }
  }

  /** Some bit below `width` of a non-zero number below 2^width is set. */
  lemma {:induction false} SetBitBelow(x: nat, width: nat) returns (j: nat)
    requires 1 <= x < Pow2(width)
    ensures j < width && Bit(x, j) == 1
  {
    if x % 2 == 1 {
      j := 0;
    } else {
      QuotientBounds(x, 2);
      j := SetBitBelow(x / 2, width - 1);
      DivDiv(x, 2, Pow2(j));
      j := j + 1;
    }
  }

  /** Every index from 1 to 2^index_bits - 1 gets a license once the codec is derived. */
  lemma {:induction false} GenerateNonZeroIndex(c: Config, digest: Digest, index: u32)
    requires NonEmptyAlphabet(c) && DeriveCodec(c).Some?
    requires 1 <= index < Pow2(c.indexBits)
    ensures GenerateSpec(c, digest, index).Some?
  {
    var codec := DeriveCodec(c).value;
    DeriveCodecConditions(c);
    DeriveCodecOrdering(c);
    var n := codec.bitsInKey;
    var j := SetBitBelow(index, c.indexBits);
    var bits := KeyBits(c, digest, index);
    PlaceRead(codec.bitsOrdering, index, Validator(c, digest, index), c.indexBits, n, n, j);
    FlatPositive(bits, codec.bitsOrdering[j]);
    GenerateOutcome(c, digest, index);
  }

  // ---------------------------------------------------------------------------
  // Validation

  /** The weight of a character: the first position of the shuffled alphabet that holds it. */
  function WeightFrom(alphabet: seq<byte>, ch: byte, k: nat): (r: Option<nat>)
    requires k <= |alphabet|
    ensures r.Some? ==> k <= r.value < |alphabet| && alphabet[r.value] == ch &&
                        forall i :: k <= i < r.value ==> alphabet[i] != ch
    ensures r.None? <==> forall i :: k <= i < |alphabet| ==> alphabet[i] != ch
    decreases |alphabet| - k
  {
    if k == |alphabet| then None
    else if alphabet[k] == ch then Some(k)
    else WeightFrom(alphabet, ch, k + 1)
  }

  /**
    The decoding loop over a candidate, from its last character to its first:
    the key so far times the base plus the weight, failing on an unknown
    character and on a result of 2^256 or more.
  */
  function Decode(s: seq<byte>, alphabet: seq<byte>): (r: Option<nat>)
    ensures r.Some? ==> r.value < Modulus256
  {
    if |s| == 0 then Some(0)
    else
      match Decode(s[1..], alphabet)
      case None => None
      case Some(b) =>
        match WeightFrom(alphabet, s[0], 0)
        case None => None
        case Some(w) =>
          var next := b * |alphabet| + w;
          if next >= Modulus256 then None else Some(next)
  }

  /** Decoding an encoded key below base^count and 2^256 gives the key back, when the alphabet has no repeats. */
  lemma {:induction false} DecodeEncode(b: nat, alphabet: seq<byte>, count: nat)
    requires |alphabet| >= 1 && Distinct(alphabet)
    requires b < Power(|alphabet|, count) && b < Modulus256
    ensures Decode(Encode(b, alphabet, count), alphabet) == Some(b)
  {
    var base := |alphabet|;
    if count > 0 {
      var s := Encode(b, alphabet, count);
      QuotientBounds(b, base);
      if b / base >= Power(base, count - 1) {
        MulMonotone(Power(base, count - 1), b / base, base);
      }
      DecodeEncode(b / base, alphabet, count - 1);
      assert s[1..] == Encode(b / base, alphabet, count - 1);
      var w := WeightFrom(alphabet, s[0], 0);
      assert w == Some(b % base);
    }
  }

  /** The exploded key: bits[i] is bit bits_in_key-1-i of the key. */
  function Explode(b: nat, n: nat): (s: seq<bit>)
    ensures |s| == n
  {
    seq(n, i requires 0 <= i < n => Bit(b, n - 1 - i))
  }

  lemma {:induction false} HalfBit(x: nat, j: nat)
    ensures Bit(x, j + 1) == Bit(x / 2, j)
    ensures x / Pow2(j + 1) == x / 2 / Pow2(j)
  {
    DivDiv(x, 2, Pow2(j));
  }

  lemma {:induction false} BitZero(x: nat)
    ensures Bit(x, 0) == x % 2
  {
    assert Pow2(0) == 1;
  }

  /** Exploding the flat key gives the slots back. */
  lemma {:induction false} ExplodeFlat(bits: seq<bit>)
    ensures Explode(Flat(bits), |bits|) == bits
  {
    var n := |bits|;
    if n > 0 {
      var p := bits[..n - 1];
      var f := Flat(p);
      var whole := Flat(bits);
      assert whole == f * 2 + bits[n - 1];
      ExplodeFlat(p);
      MulDivCancel(f, bits[n - 1], 2);
      forall i | 0 <= i < n
        ensures Explode(whole, n)[i] == bits[i]
      {
        if i < n - 1 {
          HalfBit(whole, n - 2 - i);
          assert Explode(whole, n)[i] == Bit(whole, (n - 2 - i) + 1);
          assert Explode(f, n - 1)[i] == Bit(f, n - 2 - i) == p[i];
        } else {
          assert Explode(whole, n)[i] == Bit(whole, 0);
          BitZero(whole);
        }
      }
    }
  }

  /**
    The index read back from the exploded bits: from logical bit index_bits-1
    down to bit k, each step shifts the 32-bit index left and ORs in the bit
    at the slot the ordering names.
  */
  function Gather(bits: seq<bit>, order: seq<nat>, indexBits: nat, k: nat): (r: u32)
    requires k <= indexBits <= |order| && forall j :: 0 <= j < |order| ==> order[j] < |bits|
    decreases indexBits - k
  {
    if k == indexBits then 0
    else (2 * Gather(bits, order, indexBits, k + 1) + bits[order[k]]) % WordModulus
  }

  lemma {:induction false} DoubleMod(y: nat, b: nat)
    ensures (2 * (y % WordModulus) + b) % WordModulus == (2 * y + b) % WordModulus
  {
    var q := y / WordModulus;
    assert 2 * y + b == (2 * (y % WordModulus) + b) + (2 * q) * WordModulus;
    var t := 2 * (y % WordModulus) + b;
    QuotientBounds(t, WordModulus);
    MulDivCancel(t / WordModulus + 2 * q, t % WordModulus, WordModulus);
  }

  /** Shifting right by k bits is shifting by k + 1 bits, doubled, plus bit k. */
  lemma {:induction false} ShiftStep(x: nat, k: nat)
    ensures x / Pow2(k + 1) >= 0 && x / Pow2(k) == 2 * (x / Pow2(k + 1)) + Bit(x, k)
  {
    DivDivBy(x, Pow2(k), 2, Pow2(k + 1));
    QuotientBounds(x / Pow2(k), 2);
  }

  /** One step of the gathering loop, with the index so far known modulo 2^32. */
  lemma {:induction false} GatherStep(bits: seq<bit>, order: seq<nat>, indexBits: nat, k: nat, y: nat)
    requires k < indexBits <= |order| && forall j :: 0 <= j < |order| ==> order[j] < |bits|
    requires Gather(bits, order, indexBits, k + 1) == y % WordModulus
    ensures Gather(bits, order, indexBits, k) == (2 * y + bits[order[k]]) % WordModulus
  {
    DoubleMod(y, bits[order[k]]);
  }

  /** Reading the index bits back from their slots gives the index from bit k up, modulo 2^32. */
  lemma {:induction false} GatherIndex(bits: seq<bit>, order: seq<nat>, indexBits: nat, k: nat, index: nat)
    requires k <= indexBits <= |order| && forall j :: 0 <= j < |order| ==> order[j] < |bits|
    requires index < Pow2(indexBits)
    requires forall j :: 0 <= j < indexBits ==> bits[order[j]] == Bit(index, j)
    ensures Gather(bits, order, indexBits, k) == (index / Pow2(k)) % WordModulus
    decreases indexBits - k
  {
    if k == indexBits {
      MulDivCancel(0, index, Pow2(k));
    } else {
      ShiftStep(index, k);
      GatherIndex(bits, order, indexBits, k + 1, index);
      GatherStep(bits, order, indexBits, k, index / Pow2(k + 1));
    }
  }

  /** The index validation reads out of a decoded key: its bits exploded into slots, gathered in logical order. */
  function RecoveredIndex(c: Config, b: nat): u32
    requires DeriveCodec(c).Some?
  {
    var codec := DeriveCodec(c).value;
    DeriveCodecConditions(c);
    DeriveCodecOrdering(c);
    Gather(Explode(b, codec.bitsInKey), codec.bitsOrdering, c.indexBits, 0)
  }

  /**
    The validation of a candidate whose first `count` characters the length
    loop saw: `count` must be key_length; the decoded key must not be 0; the
    index read from it must generate exactly those characters.
  */
  function ValidateCount(c: Config, digest: Digest, license: CString, count: nat): bool
    requires count <= |license|
  {
    match DeriveCodec(c)
    case None => false
    case Some(codec) =>
      if count != c.keyLength then false
      else
        match Decode(license[..count], codec.codecCharacters)
        case None => false
        case Some(b) =>
          if b == 0 then false
          else
            DeriveCodecCharacters(c);
            match GenerateSpec(c, digest, RecoveredIndex(c, b))
            case None => false
            case Some(expected) => expected == license[..count]
  }

  /** The length loop stops at the terminator, or after 101 characters. */
  function ScannedLength(license: CString): (count: nat)
    ensures count <= |license| && count <= 101
    ensures count == |license| <==> |license| <= 101
  {
    if |license| <= 101 then |license| else 101
  }

  /** mfLicensingValidateLicense: true where the routine returns 1. */
  function ValidateSpec(c: Config, digest: Digest, license: CString): bool
  {
    ValidateCount(c, digest, license, ScannedLength(license))
  }

  /**
    Validation gets as far as regenerating the license: the codec exists and
    the candidate's first key_length characters decode to a non-zero key.
    Only then is the generator reseeded with the salt seed.
  */
  predicate Regenerates(c: Config, license: CString)
  {
    match DeriveCodec(c)
    case None => false
    case Some(codec) =>
      var count := ScannedLength(license);
      count == c.keyLength && count <= |license| &&
      match Decode(license[..count], codec.codecCharacters)
      case None => false
      case Some(b) => b != 0
  }

  /** A license is accepted only if generation produces its first key_length characters for some index. */
  lemma {:induction false} ValidateAccepts(c: Config, digest: Digest, license: CString)
    requires ValidateSpec(c, digest, license)
    ensures c.keyLength <= |license| && NonEmptyAlphabet(c)
    ensures exists index: u32 :: GenerateSpec(c, digest, index) == Some(license[..c.keyLength])
    ensures |license| == c.keyLength || (c.keyLength == 101 && |license| > 101)
  {
    var codec := DeriveCodec(c).value;
    DeriveCodecConditions(c);
    DeriveCodecOrdering(c);
    DeriveCodecCharacters(c);
    var b := Decode(license[..c.keyLength], codec.codecCharacters).value;
    var index := RecoveredIndex(c, b);
    assert GenerateSpec(c, digest, index) == Some(license[..c.keyLength]);
  }

  /** A generated license is the encoding of the assembled key, which is not 0 and fits below base^key_length. */
  lemma {:induction false} GeneratedEncoding(c: Config, digest: Digest, index: u32)
    requires NonEmptyAlphabet(c) && GenerateSpec(c, digest, index).Some?
    ensures DeriveCodec(c).Some? && |DeriveCodec(c).value.codecCharacters| >= 1
    ensures GenerateSpec(c, digest, index).value ==
              Encode(Flat(KeyBits(c, digest, index)), DeriveCodec(c).value.codecCharacters, c.keyLength)
    ensures 0 < Flat(KeyBits(c, digest, index)) < Modulus256
    ensures Flat(KeyBits(c, digest, index)) < Power(|DeriveCodec(c).value.codecCharacters|, c.keyLength)
  {
    DeriveCodecConditions(c);
    DeriveCodecCharacters(c);
    DeriveCodecFits(c);
    var bits := KeyBits(c, digest, index);
    FlatBound(bits);
    Modulus256Power();
    Pow2Monotone(|bits|, 256);
  }

  /** Index bits placed by the ordering, flattened and exploded again, are gathered back into the index. */
  lemma {:induction false} GatherPlaced(order: seq<nat>, index: nat, validator: nat, indexBits: nat, n: nat)
    requires IsOrdering(order, n) && indexBits <= n && index < Pow2(indexBits) && index < WordModulus
    ensures Gather(Explode(Flat(Place(order, index, validator, indexBits, n, n)), n), order, indexBits, 0) == index
  {
    var bits := Place(order, index, validator, indexBits, n, n);
    ExplodeFlat(bits);
    forall j | 0 <= j < indexBits
      ensures bits[order[j]] == Bit(index, j)
    {
      PlaceRead(order, index, validator, indexBits, n, n, j);
    }
    GatherIndex(bits, order, indexBits, 0, index);
    assert Pow2(0) == 1;
    MulDivCancel(0, index, WordModulus);
  }

  /** The index placed by generation is read back by validation's gathering loop. */
  lemma {:induction false} IndexRecovered(c: Config, digest: Digest, index: u32)
    requires DeriveCodec(c).Some? && index < Pow2(c.indexBits)
    ensures RecoveredIndex(c, Flat(KeyBits(c, digest, index))) == index
  {
    var codec := DeriveCodec(c).value;
    DeriveCodecConditions(c);
    DeriveCodecOrdering(c);
    GatherPlaced(codec.bitsOrdering, index, Validator(c, digest, index), c.indexBits, codec.bitsInKey);
  }

  /** The core of the round trip: a generated license passes validation when the whole of it is scanned. */
  lemma {:induction false} RoundTripCount(c: Config, digest: Digest, index: u32)
    requires NonEmptyAlphabet(c) && GenerateSpec(c, digest, index).Some?
    requires Distinct(c.codedChars.value)
    ensures ValidateCount(c, digest, GenerateSpec(c, digest, index).value, c.keyLength)
  {
    var license := GenerateSpec(c, digest, index).value;
    var codec := DeriveCodec(c).value;
    GeneratedEncoding(c, digest, index);
    DeriveCodecDistinct(c);
    var b := Flat(KeyBits(c, digest, index));
    DecodeEncode(b, codec.codecCharacters, c.keyLength);
    assert license[..c.keyLength] == license;
    IndexRecovered(c, digest, index);
  }

  /**
    Round trip: with an alphabet without repeats and a key length of at most
    101, the license generated for an index is accepted.
  */
  lemma {:induction false} RoundTrip(c: Config, digest: Digest, index: u32)
    requires NonEmptyAlphabet(c) && GenerateSpec(c, digest, index).Some?
    requires Distinct(c.codedChars.value) && c.keyLength <= 101
    ensures ValidateSpec(c, digest, GenerateSpec(c, digest, index).value)
  {
    GenerateOutcome(c, digest, index);
    RoundTripCount(c, digest, index);
  }

  /**
    The length loop stops after 101 characters, so no candidate is accepted
    when key_length is 102 or more, although generation works for such keys
    (with a two-character alphabet, up to 256 characters).
  */
  lemma {:induction false} ValidateRefusesLongKeys(c: Config, digest: Digest, license: CString)
    requires c.keyLength >= 102
    ensures !ValidateSpec(c, digest, license)
  {
  }

  /**
    A binary alphabet allows any key length, far beyond 101 characters:
    2^(key_length-1) fits in 256 bits and bits_in_key is key_length itself,
    so the derivation succeeds exactly when both shuffles finish and the
    index leaves room for a validator bit.
  */
  lemma {:induction false} LongKeysDerive(c: Config)
    requires c.privateKey.Some? && c.codedChars.Some? && |c.codedChars.value| == 2
    requires c.keyLength >= 1
    ensures DeriveCodec(c).Some? <==>
              Shuffle(c.scramblingSeed, c.codedChars.value, c.keyLength).Some? && c.indexBits < c.keyLength
    ensures DeriveCodec(c).Some? ==> DeriveCodec(c).value.bitsInKey == c.keyLength
  {
    var k := c.keyLength as nat;
    PowerTwo(k - 1);
    PowerTwo(k);
    Modulus256Power();
    Pow2Monotone(k, 255);
    Pow2Monotone(k - 1, 256);
    assert Pow2(256) == 2 * Pow2(255);
    MulDivCancel(0, Pow2(k), Modulus256);
    assert Power(2, k) % Modulus256 == Pow2(k);
    NumBitsPow2(k);
    BitsInKeyIs(Pow2(k));
    assert BitsInKey(Power(2, k) % Modulus256) == k;
    if DeriveCodec(c).Some? {
      DeriveCodecConditions(c);
      DeriveCodecShuffled(c);
    }
    if Shuffle(c.scramblingSeed, c.codedChars.value, k).Some? && c.indexBits < k {
      DeriveCodecBuilds(c);
    }
  }

  /**
    With a binary alphabet and key_length of 102 or more, every index from 1
    to 2^index_bits - 1 gets a license once the shuffles finish, and that
    license does not validate.
  */
  lemma {:induction false} LongKeysGenerate(c: Config, digest: Digest, index: u32)
    requires c.privateKey.Some? && c.codedChars.Some? && |c.codedChars.value| == 2
    requires c.keyLength >= 102 && c.indexBits < c.keyLength
    requires Shuffle(c.scramblingSeed, c.codedChars.value, c.keyLength).Some?
    requires 1 <= index < Pow2(c.indexBits)
    ensures GenerateSpec(c, digest, index).Some?
    ensures !ValidateSpec(c, digest, GenerateSpec(c, digest, index).value)
  {
    LongKeysDerive(c);
    GenerateNonZeroIndex(c, digest, index);
    ValidateRefusesLongKeys(c, digest, GenerateSpec(c, digest, index).value);
  }

  /** The bit length of 2^k is k + 1. */
  lemma {:induction false} NumBitsPow2(k: nat)
    ensures NumBits(Pow2(k)) == k + 1
  {
    if k > 0 {
      NumBitsPow2(k - 1);
      assert Pow2(k) / 2 == Pow2(k - 1);
    }
  }

  lemma {:induction false} PowerTwo(k: nat)
    ensures Power(2, k) == Pow2(k)
  {
    if k > 0 {
      PowerTwo(k - 1);
    }
  }

  /** Validation with the length loop reading the whole candidate. */
  function ValidateWholeSpec(c: Config, digest: Digest, license: CString): bool
  {
    ValidateCount(c, digest, license, |license|)
  }

  /** With the whole candidate read, every generated license is accepted, whatever the key length. */
  lemma {:induction false} RoundTripWhole(c: Config, digest: Digest, index: u32)
    requires NonEmptyAlphabet(c) && GenerateSpec(c, digest, index).Some?
    requires Distinct(c.codedChars.value)
    ensures ValidateWholeSpec(c, digest, GenerateSpec(c, digest, index).value)
  {
    GenerateOutcome(c, digest, index);
    RoundTripCount(c, digest, index);
  }

  // ---------------------------------------------------------------------------
  // The routines, step by step

  lemma {:induction false} HalfShift(x: nat, k: nat)
    ensures x / Pow2(k) / 2 == x / Pow2(k + 1)
  {
    DivDiv(x, Pow2(k), 2);
    assert Pow2(k) * 2 == Pow2(k + 1);
  }

  lemma {:induction false} QuotientZero(x: nat, p: nat)
    requires p >= 1
    ensures x / p == 0 <==> x < p
  {
    QuotientBounds(x, p);
    if x < p {
      MulDivCancel(0, x, p);
    }
  }

  /** The validator block: the two reseeded blocks, the two products and the division by the private key. */
  method ComputeValidator(v: LicensingVector, rng: Rand48, digest: Digest, index: u32) returns (validator: nat)
    requires v.privateKey.Some?
    modifies rng
    ensures validator == Validator(v.Snapshot(), digest, index)
    ensures rng.state == After(SeedState(v.saltSeed), 8)
  {
    var key := Value(v.privateKey.value);
    var indexBlock := Randomize128UsingIntSeed(rng, index);
    var salt := Randomize256UsingSeed(rng, v.saltSeed);
    // mfMultiplyU128 into both halves of mixed_block, then mfMultiplyU256 into both halves of pivot.
    var mixed := digest * indexBlock;
    var pivot := salt * mixed;
    var pivotHigh := pivot / Modulus256;
    // mfDivideU256 leaves the validator untouched when the key is 0.
    validator := 0;
    if key != 0 {
      validator := pivotHigh % key;
    }
  }

  /** The index loop: store the index's low bits at their slots; what is left of the index is returned. */
  method PlaceIndexBits(bits: array<bit>, order: seq<nat>, index: u32, ghost validator: nat, indexBits: nat)
    returns (rest: nat)
    requires IsOrdering(order, bits.Length) && indexBits <= bits.Length
    requires bits[..] == Place(order, index, validator, indexBits, bits.Length, 0)
    modifies bits
    ensures bits[..] == Place(order, index, validator, indexBits, bits.Length, indexBits)
    ensures rest == 0 <==> index < Pow2(indexBits)
  {
    var n := bits.Length;
    rest := index;
    var i := 0;
    while i < indexBits
      invariant i <= indexBits
      invariant bits[..] == Place(order, index, validator, indexBits, n, i)
      invariant rest == index / Pow2(i)
    {
      bits[order[i]] := rest % 2;
      HalfShift(index, i);
      rest := rest / 2;
      i := i + 1;
    }
    QuotientZero(index, Pow2(indexBits));
  }

  /** The validator loop: store the validator's low bits at the remaining slots. */
  method PlaceValidatorBits(bits: array<bit>, order: seq<nat>, ghost index: nat, validator: nat, indexBits: nat)
    requires IsOrdering(order, bits.Length) && indexBits <= bits.Length
    requires bits[..] == Place(order, index, validator, indexBits, bits.Length, indexBits)
    modifies bits
    ensures bits[..] == Place(order, index, validator, indexBits, bits.Length, bits.Length)
  {
    var n := bits.Length;
    var rest := validator;
    var i := indexBits;
    assert Pow2(0) == 1;
    while i < n
      invariant indexBits <= i <= n
      invariant bits[..] == Place(order, index, validator, indexBits, n, i)
      invariant rest == validator / Pow2(i - indexBits)
    {
      bits[order[i]] := rest % 2;
      HalfShift(validator, i - indexBits);
      rest := rest / 2;
      i := i + 1;
    }
  }

  /** The flattening loop: shift the key left and OR the next slot into its low bit. */
  method FlattenBits(bits: array<bit>) returns (b: nat)
    requires bits.Length <= 256
    ensures b == Flat(bits[..])
  {
    b := 0;
    for i := 0 to bits.Length
      invariant b == Flat(bits[..i])
    {
      assert bits[..i + 1][..i] == bits[..i];
      FlatStep(bits[..i + 1], b);
      b := Or((2 * b) % Modulus256, bits[i]);
    }
    assert bits[..bits.Length] == bits[..];
  }

  /** One pass of the flattening loop: the shift does not wrap and the OR sets the low bit. */
  lemma {:induction false} FlatStep(prefix: seq<bit>, b: nat)
    requires 1 <= |prefix| <= 256 && b == Flat(prefix[..|prefix| - 1])
    ensures Or((2 * b) % Modulus256, prefix[|prefix| - 1]) == Flat(prefix)
  {
    var i := |prefix| - 1;
    FlatBound(prefix[..i]);
    DoubleBelow256(b, i);
    OrLowBit(2 * b, prefix[i]);
  }

  /** A number of at most 255 bits can be doubled without wrapping at 2^256. */
  lemma {:induction false} DoubleBelow256(b: nat, i: nat)
    requires i < 256 && b < Pow2(i)
    ensures (2 * b) % Modulus256 == 2 * b
  {
    Modulus256Power();
    Pow2Monotone(i + 1, 256);
    MulDivCancel(0, 2 * b, Modulus256);
  }

  /** The encoding loop: `count` divisions by the base, each remainder picking a character. */
  method EncodeKey(b: nat, alphabet: seq<byte>, count: nat) returns (key: seq<byte>, rest: nat)
    requires |alphabet| >= 1
    ensures key == Encode(b, alphabet, count) && rest == Leftover(b, |alphabet|, count)
  {
    var base := |alphabet|;
    var encoded := new byte[count + 1];
    rest := b;
    var i := 0;
    while i < count
      invariant i <= count
      invariant encoded[..i] + Encode(rest, alphabet, count - i) == Encode(b, alphabet, count)
      invariant Leftover(rest, base, count - i) == Leftover(b, base, count)
    {
      var quotient := rest / base;
      var remainder := rest % base;
      encoded[i] := alphabet[remainder];
      assert encoded[..i + 1] == encoded[..i] + [alphabet[remainder]];
      rest := quotient;
      i := i + 1;
    }
    // the terminator
    encoded[count] := 0;
    key := encoded[..count];
  }

  /** mfLicensingGenerateLicense, with the generator state as an object the routine reseeds. */
  method GenerateLicense(v: LicensingVector, rng: Rand48, digest: Digest, index: u32) returns (license: Option<seq<byte>>)
    requires NonEmptyAlphabet(v.Snapshot())
    modifies rng
    ensures license == GenerateSpec(v.Snapshot(), digest, index)
    ensures DeriveCodec(v.Snapshot()).Some? ==> rng.state == After(SeedState(v.saltSeed), 8)
    ensures var y := CodecState(v.Snapshot(), old(rng.state));
            DeriveCodec(v.Snapshot()).None? && y.Some? ==> rng.state == y.value
  {
    ghost var c := v.Snapshot();
    var codec := InitializeCodecParams(v, rng);
    if codec.None? {
      return None;
    }
    DeriveCodecConditions(c);
    DeriveCodecOrdering(c);
    DeriveCodecCharacters(c);
    DeriveCodecFits(c);
    var n := codec.value.bitsInKey;
    var order := codec.value.bitsOrdering;
    var bits := new bit[n](_ => 0);
    var validator := ComputeValidator(v, rng, digest, index);
    var rest := PlaceIndexBits(bits, order, index, validator, v.indexBits);
    var b := 0;
    if rest == 0 {
      PlaceValidatorBits(bits, order, index, validator, v.indexBits);
      b := FlattenBits(bits);
    }
    if b == 0 {
      return None;
    }
    var key, left := EncodeKey(b, codec.value.codecCharacters, v.keyLength);
    if left != 0 {
      return None;
    }
    return Some(key);
  }

  /** The length loop of validation. */
  method ScanLength(license: CString) returns (count: nat)
    ensures count == ScannedLength(license)
  {
    count := 0;
    while count < |license|
      invariant count <= |license| && count <= 101
    {
      if count > 100 {
        break;
      }
      count := count + 1;
    }
  }

  /** The weight search: the first position holding the character, or the base when there is none. */
  method FindWeight(alphabet: seq<byte>, ch: byte) returns (weight: nat)
    ensures weight <= |alphabet|
    ensures weight < |alphabet| ==> WeightFrom(alphabet, ch, 0) == Some(weight)
    ensures weight == |alphabet| ==> WeightFrom(alphabet, ch, 0).None?
  {
    weight := 0;
    while weight < |alphabet|
      invariant weight <= |alphabet|
      invariant WeightFrom(alphabet, ch, weight) == WeightFrom(alphabet, ch, 0)
    {
      if ch == alphabet[weight] {
        break;
      }
      weight := weight + 1;
    }
  }

  /** Once decoding a suffix fails, decoding the whole candidate fails. */
  lemma {:induction false} DecodeFails(s: seq<byte>, j: nat, alphabet: seq<byte>)
    requires j <= |s| && Decode(s[j..], alphabet).None?
    ensures Decode(s, alphabet).None?
    decreases j
  {
    if j > 0 {
      assert s[j - 1..][1..] == s[j..];
      DecodeFails(s, j - 1, alphabet);
    }
  }

  /** A character outside the alphabet makes Decode fail. */
  lemma {:induction false} DecodeUnknown(s: seq<byte>, alphabet: seq<byte>)
    requires |s| >= 1 && WeightFrom(alphabet, s[0], 0).None?
    ensures Decode(s, alphabet).None?
  {
  }

  /** A character of weight w: the key so far times the base, plus w. */
  lemma {:induction false} DecodeDigit(s: seq<byte>, alphabet: seq<byte>, b: nat, base: nat, w: nat)
    requires |s| >= 1 && Decode(s[1..], alphabet) == Some(b)
    requires base == |alphabet| && WeightFrom(alphabet, s[0], 0) == Some(w)
    ensures Decode(s, alphabet) == if b * base + w >= Modulus256 then None else Some(b * base + w)
  {
    var next := b * |alphabet| + w;
    assert next == b * base + w;
    assert Decode(s, alphabet) == if next >= Modulus256 then None else Some(next);
  }

  /** A candidate whose suffix from i does not decode does not decode. */
  lemma {:induction false} DecodeSuffixFails(license: seq<byte>, i: nat, count: nat, alphabet: seq<byte>)
    requires i <= count <= |license| && Decode(license[i..count], alphabet).None?
    ensures Decode(license[..count], alphabet).None?
  {
    assert license[..count][i..] == license[i..count];
    DecodeFails(license[..count], i, alphabet);
  }

  /** The decoding loop, from the last character of the candidate to the first. */
  method DecodeKey(license: CString, count: nat, alphabet: seq<byte>) returns (key: Option<nat>)
    requires count <= |license|
    ensures key == Decode(license[..count], alphabet)
  {
    var base := |alphabet|;
    var b: nat := 0;
    var i: nat := count;
    while i > 0
      invariant i <= count
      invariant Decode(license[i..count], alphabet) == Some(b)
    {
      i := i - 1;
      ghost var s := license[i..count];
      assert s[1..] == license[i + 1..count];
      var weight := FindWeight(alphabet, license[i]);
      if weight >= base {
        DecodeUnknown(s, alphabet);
        DecodeSuffixFails(license, i, count, alphabet);
        return None;
      }
      DecodeDigit(s, alphabet, b, base, weight);
      var temp := b * base;
      var overflow: int := temp / Modulus256;
      QuotientZero(temp, Modulus256);
      if overflow != 0 || temp + weight >= Modulus256 {
        DecodeSuffixFails(license, i, count, alphabet);
        return None;
      }
      b := temp + weight;
    }
    assert license[..count] == license[0..count];
    return Some(b);
  }

  /** The explode loop: slot bit_i gets bit bits_in_key-1-bit_i of the key. */
  method ExplodeKey(b: nat, n: nat) returns (bits: array<bit>)
    ensures fresh(bits) && bits[..] == Explode(b, n)
  {
    bits := new bit[n];
    var key := b;
    var i := n;
    assert Pow2(0) == 1;
    while i > 0
      invariant i <= n && key == b / Pow2(n - i)
      invariant forall j :: i <= j < n ==> bits[j] == Explode(b, n)[j]
    {
      i := i - 1;
      assert Explode(b, n)[i] == Bit(b, n - 1 - i);
      bits[i] := key % 2;
      HalfShift(b, n - 1 - i);
      key := key / 2;
    }
    assert bits[..] == Explode(b, n);
  }

  /** One step of the index loop is the shift and OR of the specification. */
  lemma {:induction false} GatherOr(index: u32, b: bit)
    ensures Or((2 * index) % WordModulus, b) == (2 * index + b) % WordModulus
  {
    var shifted := (2 * index) % WordModulus;
    OrLowBit(shifted, b);
    QuotientBounds(2 * index, WordModulus);
    MulDivCancel((2 * index) / WordModulus, shifted + b, WordModulus);
  }

  /** The index loop: from logical bit index_bits-1 down to 0, shift the index left and OR in the bit. */
  method GatherIndexBits(bits: array<bit>, order: seq<nat>, indexBits: nat) returns (index: u32)
    requires indexBits <= |order| && forall j :: 0 <= j < |order| ==> order[j] < bits.Length
    ensures index == Gather(bits[..], order, indexBits, 0)
  {
    index := 0;
    var i: nat := indexBits;
    while i > 0
      invariant i <= indexBits && index == Gather(bits[..], order, indexBits, i)
    {
      i := i - 1;
      GatherOr(index, bits[order[i]]);
      index := Or((2 * index) % WordModulus, bits[order[i]]);
    }
  }

  /** The key validation decodes: 0 for a candidate of the wrong length or one that does not decode. */
  method ReadKey(license: CString, count: nat, keyLength: nat, alphabet: seq<byte>) returns (b: nat)
    requires count <= |license|
    ensures b == if count != keyLength then 0 else match Decode(license[..count], alphabet)
                                                   case None => 0
                                                   case Some(x) => x
  {
    b := 0;
    if count == keyLength {
      var decoded := DecodeKey(license, count, alphabet);
      if decoded.Some? {
        b := decoded.value;
      }
    }
  }

  /** The explode and index loops: the index a decoded key encodes. */
  method ReadIndex(ghost c: Config, codec: Codec, indexBits: byte, b: nat) returns (index: u32)
    requires DeriveCodec(c) == Some(codec) && indexBits == c.indexBits
    ensures index == RecoveredIndex(c, b)
  {
    DeriveCodecConditions(c);
    DeriveCodecOrdering(c);
    var bits := ExplodeKey(b, codec.bitsInKey);
    index := GatherIndexBits(bits, codec.bitsOrdering, indexBits);
  }

  /** The comparison loop, from the last character to the first. */
  method SameCharacters(expected: seq<byte>, license: seq<byte>, count: nat) returns (same: bool)
    requires |expected| == count <= |license|
    ensures same <==> expected == license[..count]
  {
    var i: nat := count;
    while i > 0
      invariant i <= count
      invariant expected[i..] == license[i..count]
    {
      i := i - 1;
      if expected[i] != license[i] {
        return false;
      }
      assert expected[i..] == [expected[i]] + expected[i + 1..];
      assert license[i..count] == [license[i]] + license[i + 1..count];
    }
    return true;
  }

  /** mfLicensingValidateLicense: 1 exactly when the candidate is the license of the index it encodes. */
  method ValidateLicense(v: LicensingVector, rng: Rand48, digest: Digest, license: CString) returns (valid: bool)
    modifies rng
    ensures valid == ValidateSpec(v.Snapshot(), digest, license)
    ensures Regenerates(v.Snapshot(), license) ==> rng.state == After(SeedState(v.saltSeed), 8)
    ensures var y := CodecState(v.Snapshot(), old(rng.state));
            !Regenerates(v.Snapshot(), license) && y.Some? ==> rng.state == y.value
  {
    ghost var c := v.Snapshot();
    var codec := InitializeCodecParams(v, rng);
    if codec.None? {
      return false;
    }
    DeriveCodecConditions(c);
    DeriveCodecCharacters(c);
    var count := ScanLength(license);
    var b := ReadKey(license, count, v.keyLength, codec.value.codecCharacters);
    if b == 0 {
      return false;
    }
    var index := ReadIndex(c, codec.value, v.indexBits, b);
    var expected := GenerateLicense(v, rng, digest, index);
    if expected.None? {
      return false;
    }
    GenerateOutcome(c, digest, index);
    valid := SameCharacters(expected.value, license, count);
  }
}
