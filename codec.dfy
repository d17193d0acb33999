/**
  mfLicensingInitializeCodecParams: the parameters of the base-N license
  codec, derived from a licensing vector.

  The encoding base is the alphabet's size.  The key holds bits_in_key bits,
  one less than the bit length of base^key_length (computed modulo 2^256).
  The alphabet and the bit positions are shuffled by rejection sampling with
  `lrand48`, after reseeding the generator with the scrambling seed, so the
  codec depends only on the vector.
*/
module Codec {
  import opened WideValue
  import opened Drand48
  import opened Vector

  /** mfLicensingCodecParams. */
  datatype Codec = Codec(encodingBase: nat, bitsInKey: nat, codecCharacters: seq<byte>, bitsOrdering: seq<nat>)

  /**
    The number of `lrand48` draws one shuffle may make before the derivation
    gives up.  The C loops have no such bound.
  */
  const DrawBudget: nat := 0x100_0000_0000_0000

  function Power(b: nat, k: nat): nat
  {
    if k == 0 then 1 else b * Power(b, k - 1)
  }

  lemma {:induction false} PowerMonotone(b: nat, i: nat, j: nat)
    requires b >= 1 && i <= j
    ensures 1 <= Power(b, i) <= Power(b, j)
    decreases j
  {
    if i < j {
      PowerMonotone(b, i, j - 1);
      MulMonotone(1, b, Power(b, j - 1));
    } else if i > 0 {
      PowerMonotone(b, i - 1, i - 1);
      MulMonotone(1, b, Power(b, i - 1));
    }
  }

  // ---------------------------------------------------------------------------
  // Step 1 of the key length: base^key_length

  /**
    The max_key loop with `remaining` multiplications to go: each multiplies
    by the base modulo 2^256, and a product that does not fit fails the
    derivation unless it is the last one.
  */
  function MaxKeyFrom(m: nat, base: nat, remaining: nat): Option<nat>
    decreases remaining
  {
    if remaining == 0 then Some(m)
    else
      var product := m * base;
      if product >= Modulus256 && remaining - 1 > 0 then None
      else MaxKeyFrom(product % Modulus256, base, remaining - 1)
  }

  lemma {:induction false} MaxKeyFromPower(base: nat, j: nat, r: nat)
    requires r >= 1 && Power(base, j) < Modulus256
    ensures MaxKeyFrom(Power(base, j), base, r) ==
              if Power(base, j + r - 1) >= Modulus256 then None else Some(Power(base, j + r) % Modulus256)
    decreases r
  {
    var p := Power(base, j + 1);
    assert p == Power(base, j) * base;
    if r > 1 {
      if p >= Modulus256 {
        assert base >= 1;
        PowerMonotone(base, j + 1, j + r - 1);
      } else {
        MulDivCancel(0, p, Modulus256);
        MaxKeyFromPower(base, j + 1, r - 1);
        assert j + 1 + (r - 1) == j + r;
      }
    }
  }

  /**
    The multiplications of the max_key loop fail exactly when base^(key_length-1)
    does not fit in 256 bits; otherwise the result is base^key_length modulo 2^256
    (the last product is not checked).
  */
  lemma {:induction false} MaxKeyClosedForm(base: nat, keyLength: nat)
    requires keyLength >= 1
    ensures MaxKeyFrom(1, base, keyLength) ==
              if Power(base, keyLength - 1) >= Modulus256 then None else Some(Power(base, keyLength) % Modulus256)
  {
    assert Power(base, 0) == 1;
    MaxKeyFromPower(base, 0, keyLength);
  }

  // ---------------------------------------------------------------------------
  // Step 2 of the key length: bits_in_key

  /** The bit length of v: how often it can be halved before it is 0. */
  function NumBits(v: nat): nat
  {
    if v == 0 then 0 else 1 + NumBits(v / 2)
  }

  lemma {:induction false} NumBitsRange(v: nat)
    requires v > 0
    ensures NumBits(v) >= 1 && Pow2(NumBits(v) - 1) <= v < Pow2(NumBits(v))
  {
    if v > 1 {
      NumBitsRange(v / 2);
    }
  }

  lemma {:induction false} NumBitsAtMost(v: nat, k: nat)
    requires v < Pow2(k)
    ensures NumBits(v) <= k
  {
    if v > 0 {
      NumBitsAtMost(v / 2, k - 1);
    }
  }

  /** binary_key_length: the 8-bit count of halvings, less one (so 0 wraps to 255). */
  function BitsInKey(maxKey: nat): nat
  {
    (NumBits(maxKey) + 255) % 256
  }

  /** For a number of 1 to 256 bits the wrap-around does not happen. */
  lemma {:induction false} BitsInKeyIs(v: nat)
    requires 1 <= NumBits(v) <= 256
    ensures BitsInKey(v) == NumBits(v) - 1
  {
    var k := NumBits(v);
    assert (k + 255) % 256 == k - 1;
  }

  /**
    The key's bits fit in key_length characters: 2^bits_in_key <= base^key_length,
    also when the last multiplication wrapped around.
  */
  lemma {:induction false} BitsInKeyFits(base: nat, keyLength: nat)
    requires base >= 1 && keyLength >= 1 && Power(base, keyLength - 1) < Modulus256
    ensures Pow2(BitsInKey(Power(base, keyLength) % Modulus256)) <= Power(base, keyLength)
    ensures BitsInKey(Power(base, keyLength) % Modulus256) < 256
  {
    var P := Power(base, keyLength);
    PowerMonotone(base, 0, keyLength);
    WrappedBits(P);
  }

  lemma {:induction false} WrappedBits(P: nat)
    requires P >= 1
    ensures Pow2(BitsInKey(P % Modulus256)) <= P && BitsInKey(P % Modulus256) < 256
  {
    var m := P % Modulus256;
    if m == 0 {
      assert BitsInKey(0) == 255;
      WrapsToZero(P);
    } else {
      MulDivCancel(P / Modulus256, m, Modulus256);
      BitsBelow(m);
    }
  }

  /** A positive multiple of 2^256 is at least 2^255. */
  lemma {:induction false} WrapsToZero(P: nat)
    requires P >= 1 && P % Modulus256 == 0
    ensures Pow2(255) <= P
  {
    Modulus256Power();
    assert P == (P / Modulus256) * Modulus256;
    MulMonotone(1, P / Modulus256, Modulus256);
    Pow2Monotone(255, 256);
  }

  /** A number of 1 to 256 bits is at least 2 to the power bits_in_key. */
  lemma {:induction false} BitsBelow(m: nat)
    requires 0 < m < Modulus256
    ensures BitsInKey(m) < 256 && Pow2(BitsInKey(m)) <= m
  {
    NumBitsBelow256(m);
    NumBitsRange(m);
    BitsInKeyIs(m);
  }

  lemma {:induction false} NumBitsBelow256(m: nat)
    requires m < Modulus256
    ensures NumBits(m) <= 256
  {
    Modulus256Power();
    NumBitsAtMost(m, 256);
  }

  /** Without the wrap-around, bits_in_key is the largest such number: base^key_length < 2^(bits_in_key + 1). */
  lemma {:induction false} BitsInKeyTight(base: nat, keyLength: nat)
    requires base >= 1 && Power(base, keyLength) < Modulus256
    ensures Power(base, keyLength) < Pow2(BitsInKey(Power(base, keyLength) % Modulus256) + 1)
  {
    var P := Power(base, keyLength);
    PowerMonotone(base, 0, keyLength);
    UnwrappedBits(P);
  }

  lemma {:induction false} UnwrappedBits(P: nat)
    requires 1 <= P < Modulus256
    ensures P < Pow2(BitsInKey(P % Modulus256) + 1)
  {
    MulDivCancel(0, P, Modulus256);
    NumBitsBelow256(P);
    NumBitsRange(P);
    BitsInKeyIs(P);
  }

  // ---------------------------------------------------------------------------
  // The two shuffles

  /**
    Shuffling the alphabet: each draw picks a slot; a free (0) slot gets the
    next character, an occupied one is drawn again.  Gives the slots and the
    generator state after the last draw, or None when the budget runs out.
  */
  function ScrambleChars(x: nat, chars: seq<byte>, slots: seq<byte>, placed: nat, fuel: nat): Option<(seq<byte>, nat)>
    requires placed <= |chars| == |slots|
    decreases fuel, 0
  {
    if placed == |chars| then Some((slots, x))
    else if fuel == 0 then None
    else PlaceDrawn(x, chars, slots, placed, fuel - 1)
  }

  /** One draw of the alphabet shuffle, then the rest of the shuffle from the next state. */
  function PlaceDrawn(x: nat, chars: seq<byte>, slots: seq<byte>, placed: nat, fuel: nat): Option<(seq<byte>, nat)>
    requires placed < |chars| == |slots|
    decreases fuel, 1
  {
    var slot := Draw(x) % |chars|;
    if slots[slot] == 0 then ScrambleChars(Next(x), chars, slots[slot := chars[placed]], placed + 1, fuel)
    else ScrambleChars(Next(x), chars, slots, placed, fuel)
  }

  /** The slots hold the characters placed so far and one 0 for each character still to place. */
  ghost predicate CharsPlaced(chars: seq<byte>, slots: seq<byte>, placed: nat)
  {
    |slots| == |chars| && placed <= |chars| &&
    multiset(slots) == multiset(chars[..placed]) + multiset{}[0 := |chars| - placed]
  }

  lemma {:induction false} PlaceChar(chars: CString, slots: seq<byte>, placed: nat, slot: nat)
    requires CharsPlaced(chars, slots, placed) && placed < |chars| && slot < |slots| && slots[slot] == 0
    ensures CharsPlaced(chars, slots[slot := chars[placed]], placed + 1)
  {
    var c := chars[placed];
    var k := |chars| - placed;
    assert chars[..placed + 1] == chars[..placed] + [c];
    assert 0 !in multiset(chars[..placed]) by {
      assert forall i :: 0 <= i < placed ==> chars[..placed][i] == chars[i] != 0;
    }
    assert slots[slot] in multiset(slots);
    assert k >= 1;
    assert multiset{}[0 := k] - multiset{0} == multiset{}[0 := k - 1];
  }

  /** A completed shuffle is a permutation of the alphabet. */
  lemma {:induction false} ScrambleCharsPermutes(x: nat, chars: CString, slots: seq<byte>, placed: nat, fuel: nat)
    requires CharsPlaced(chars, slots, placed)
    requires ScrambleChars(x, chars, slots, placed, fuel).Some?
    ensures multiset(ScrambleChars(x, chars, slots, placed, fuel).value.0) == multiset(chars)
    ensures |ScrambleChars(x, chars, slots, placed, fuel).value.0| == |chars|
    decreases fuel
  {
    if placed == |chars| {
      assert chars[..placed] == chars;
    } else {
      var slot := Draw(x) % |chars|;
      if slots[slot] == 0 {
        PlaceChar(chars, slots, placed, slot);
        ScrambleCharsPermutes(Next(x), chars, slots[slot := chars[placed]], placed + 1, fuel - 1);
      } else {
        ScrambleCharsPermutes(Next(x), chars, slots, placed, fuel - 1);
      }
    }
  }

  /**
    Shuffling the bit positions: each draw picks a position below n; one not
    taken yet becomes the next entry of the ordering.  Gives the ordering and
    the generator state, or None when the budget runs out.
  */
  function ScrambleBits(x: nat, n: nat, taken: seq<bool>, order: seq<nat>, fuel: nat): Option<(seq<nat>, nat)>
    requires |taken| == n && |order| <= n
    decreases fuel, 0
  {
    if |order| == n then Some((order, x))
    else if fuel == 0 then None
    else TakeDrawn(x, n, taken, order, fuel - 1)
  }

  /** One draw of the bit-position shuffle, then the rest of the shuffle from the next state. */
  function TakeDrawn(x: nat, n: nat, taken: seq<bool>, order: seq<nat>, fuel: nat): Option<(seq<nat>, nat)>
    requires |taken| == n && |order| < n
    decreases fuel, 1
  {
    var p := Draw(x) % n;
    if !taken[p] then ScrambleBits(Next(x), n, taken[p := true], order + [p], fuel)
    else ScrambleBits(Next(x), n, taken, order, fuel)
  }

  /** The ordering so far lists distinct positions below n, and `taken` marks exactly those. */
  ghost predicate OrderPlaced(n: nat, taken: seq<bool>, order: seq<nat>)
  {
    |taken| == n && |order| <= n &&
    (forall k :: 0 <= k < |order| ==> order[k] < n) &&
    Distinct(order) &&
    (forall p :: 0 <= p < n ==> (taken[p] <==> p in order))
  }

  /** A permutation of the positions 0 .. n-1. */
  predicate IsOrdering(order: seq<nat>, n: nat)
  {
    |order| == n && (forall k :: 0 <= k < n ==> order[k] < n) && Distinct(order)
  }

  /** A completed shuffle lists every position below n exactly once. */
  lemma {:induction false} ScrambleBitsPermutes(x: nat, n: nat, taken: seq<bool>, order: seq<nat>, fuel: nat)
    requires OrderPlaced(n, taken, order)
    requires ScrambleBits(x, n, taken, order, fuel).Some?
    ensures IsOrdering(ScrambleBits(x, n, taken, order, fuel).value.0, n)
    decreases fuel
  {
    if |order| < n {
      var p := Draw(x) % n;
      if !taken[p] {
        var order' := order + [p];
        assert forall k :: 0 <= k < |order| ==> order'[k] == order[k];
        assert OrderPlaced(n, taken[p := true], order');
        ScrambleBitsPermutes(Next(x), n, taken[p := true], order', fuel - 1);
      } else {
        ScrambleBitsPermutes(Next(x), n, taken, order, fuel - 1);
      }
    }
  }

  /** A sequence with the same elements as a sequence without repeats has no repeats either. */
  lemma {:induction false} DistinctPermutation<T>(a: seq<T>, b: seq<T>)
    requires multiset(a) == multiset(b) && Distinct(b)
    ensures Distinct(a)
  {
    forall i, j | 0 <= i < j < |a|
      ensures a[i] != a[j]
    {
      if a[i] == a[j] {
        assert a == a[..j] + a[j..];
        assert a[i] in multiset(a[..j]) by { assert a[..j][i] == a[i]; }
        assert a[j] in multiset(a[j..]) by { assert a[j..][0] == a[j]; }
        assert multiset(a)[a[i]] == multiset(a[..j])[a[i]] + multiset(a[j..])[a[i]];
        DistinctCount(b, a[i]);
      }
    }
  }

  lemma {:induction false} DistinctCount<T>(b: seq<T>, x: T)
    requires Distinct(b)
    ensures multiset(b)[x] <= 1
  {
    if |b| > 0 {
      var p := b[..|b| - 1];
      assert b == p + [b[|b| - 1]];
      assert Distinct(p);
      DistinctCount(p, x);
      if x == b[|b| - 1] {
        assert x !in p;
      }
    }
  }

  // ---------------------------------------------------------------------------
  // The derivation

  /**
    The shuffles, from the state seed48 installs with the scrambling seed: the
    shuffled alphabet, the bit ordering and the generator state left behind.
  */
  function Shuffle(seed: SeedWords, chars: seq<byte>, bits: nat): Option<(seq<byte>, seq<nat>, nat)>
  {
    match ScrambleChars(SeedState(seed), chars, Zeros(|chars|), 0, DrawBudget)
    case None => None
    case Some(r) =>
      match ScrambleBits(r.1, bits, seq(bits, _ => false), [], DrawBudget)
      case None => None
      case Some(o) => Some((r.0, o.0, o.1))
  }

  /**
    The routine gets as far as seed48: key and alphabet present, at most 100
    characters, a non-zero key length and a max_key loop that did not fail.
  */
  predicate Reseeds(c: Config)
  {
    c.privateKey.Some? && c.codedChars.Some? && |c.codedChars.value| <= 100 && c.keyLength != 0 &&
    MaxKeyFrom(1, |c.codedChars.value|, c.keyLength).Some?
  }

  /** bits_in_key, once the max_key loop has succeeded. */
  function KeyBits(c: Config): nat
    requires Reseeds(c)
  {
    BitsInKey(MaxKeyFrom(1, |c.codedChars.value|, c.keyLength).value)
  }

  /** mfLicensingInitializeCodecParams: the codec, or None where the routine returns 0. */
  function DeriveCodec(c: Config): Option<Codec>
  {
    if !Reseeds(c) then None
    else
      var bits := KeyBits(c);
      match Shuffle(c.scramblingSeed, c.codedChars.value, bits)
      case None => None
      case Some(s) =>
        if c.indexBits >= bits then None else Some(Codec(|c.codedChars.value|, bits, s.0, s.1))
  }

  /**
    The generator state mfLicensingInitializeCodecParams leaves behind when it
    starts from state x: x itself when it returns before seed48, otherwise the
    state after both shuffles (also when the index check then fails).  None
    when a shuffle ran out of its draw budget.
  */
  function CodecState(c: Config, x: nat): Option<nat>
  {
    if !Reseeds(c) then Some(x)
    else
      match Shuffle(c.scramblingSeed, c.codedChars.value, KeyBits(c))
      case None => None
      case Some(s) => Some(s.2)
  }

  /**
    When the derivation succeeds, the key and the alphabet are present, the
    alphabet has at most 100 characters, the key length is not 0,
    base^(key_length-1) fits in 256 bits, and the index leaves room for at
    least one validator bit.
  */
  lemma {:induction false} DeriveCodecConditions(c: Config)
    requires DeriveCodec(c).Some?
    ensures c.privateKey.Some? && c.codedChars.Some?
    ensures |c.codedChars.value| <= 100 && c.keyLength >= 1
    ensures Power(|c.codedChars.value|, c.keyLength - 1) < Modulus256
    ensures DeriveCodec(c).value.encodingBase == |c.codedChars.value|
    ensures DeriveCodec(c).value.bitsInKey == BitsInKey(Power(|c.codedChars.value|, c.keyLength) % Modulus256)
    ensures c.indexBits < DeriveCodec(c).value.bitsInKey
  {
    assert c.privateKey.Some? && c.codedChars.Some?;
    var chars := c.codedChars.value;
    assert |chars| <= 100 && c.keyLength != 0;
    var maxKey := MaxKeyFrom(1, |chars|, c.keyLength);
    assert maxKey.Some?;
    MaxKeyClosedForm(|chars|, c.keyLength);
    var bits := BitsInKey(maxKey.value);
    var s := Shuffle(c.scramblingSeed, chars, bits);
    assert s.Some? && c.indexBits < bits;
    assert DeriveCodec(c) == Some(Codec(|chars|, bits, s.value.0, s.value.1));
  }

  /**
    The converse: with those conditions met and both shuffles finishing
    within their draw budget, the derivation succeeds.
  */
  lemma {:induction false} DeriveCodecBuilds(c: Config)
    requires c.privateKey.Some? && c.codedChars.Some?
    requires |c.codedChars.value| <= 100 && c.keyLength >= 1
    requires Power(|c.codedChars.value|, c.keyLength - 1) < Modulus256
    requires Shuffle(c.scramblingSeed, c.codedChars.value, BitsInKey(Power(|c.codedChars.value|, c.keyLength) % Modulus256)).Some?
    requires c.indexBits < BitsInKey(Power(|c.codedChars.value|, c.keyLength) % Modulus256)
    ensures DeriveCodec(c).Some?
    ensures DeriveCodec(c).value.bitsInKey == BitsInKey(Power(|c.codedChars.value|, c.keyLength) % Modulus256)
  {
    MaxKeyClosedForm(|c.codedChars.value|, c.keyLength);
  }

  /**
    The failures of the derivation apart from an exhausted draw budget: a
    missing key or alphabet, more than 100 characters, key length 0, a
    base^(key_length-1) of 2^256 or more, or no room for a validator bit.
  */
  lemma {:induction false} DeriveCodecRefuses(c: Config)
    requires c.privateKey.None? || c.codedChars.None? || |c.codedChars.value| > 100 || c.keyLength == 0 ||
             Power(|c.codedChars.value|, c.keyLength - 1) >= Modulus256 ||
             c.indexBits >= BitsInKey(Power(|c.codedChars.value|, c.keyLength) % Modulus256)
    ensures DeriveCodec(c).None?
  {
    if DeriveCodec(c).Some? {
      DeriveCodecConditions(c);
    }
  }

  /** A derived codec's alphabet and ordering are the outcome of the two shuffles. */
  lemma {:induction false} DeriveCodecShuffled(c: Config)
    requires DeriveCodec(c).Some?
    ensures var s := Shuffle(c.scramblingSeed, c.codedChars.value, DeriveCodec(c).value.bitsInKey);
            s.Some? && s.value.0 == DeriveCodec(c).value.codecCharacters && s.value.1 == DeriveCodec(c).value.bitsOrdering
  {
  }

  /**
    A successful derivation leaves the generator in a state that depends only
    on the vector, whatever state it started from: the state after the
    shuffles seeded with the scrambling seed.
  */
  lemma {:induction false} DerivedState(c: Config, x: nat, y: nat)
    requires DeriveCodec(c).Some?
    ensures CodecState(c, x).Some? && CodecState(c, x) == CodecState(c, y)
    ensures CodecState(c, x).value == Shuffle(c.scramblingSeed, c.codedChars.value, DeriveCodec(c).value.bitsInKey).value.2
  {
  }

  /** A routine that returns before seed48 leaves the generator as it found it. */
  lemma {:induction false} UnseededState(c: Config, x: nat)
    requires c.privateKey.None? || c.codedChars.None? || |c.codedChars.value| > 100 || c.keyLength == 0 ||
             Power(|c.codedChars.value|, c.keyLength - 1) >= Modulus256
    ensures CodecState(c, x) == Some(x)
  {
    if c.privateKey.Some? && c.codedChars.Some? && |c.codedChars.value| <= 100 && c.keyLength != 0 {
      MaxKeyClosedForm(|c.codedChars.value|, c.keyLength);
    }
  }

  /** A derived codec's alphabet is a permutation of the vector's alphabet. */
  lemma {:induction false} DeriveCodecCharacters(c: Config)
    requires DeriveCodec(c).Some?
    ensures multiset(DeriveCodec(c).value.codecCharacters) == multiset(c.codedChars.value)
    ensures |DeriveCodec(c).value.codecCharacters| == |c.codedChars.value|
  {
    var chars := c.codedChars.value;
    var n := |chars|;
    DeriveCodecShuffled(c);
    ZerosMultiset(n);
    assert chars[..0] == [];
    assert CharsPlaced(chars, Zeros(n), 0);
    ScrambleCharsPermutes(SeedState(c.scramblingSeed), chars, Zeros(n), 0, DrawBudget);
  }

  /** A derived codec's bit ordering is a permutation of the positions 0 .. bits_in_key-1. */
  lemma {:induction false} DeriveCodecOrdering(c: Config)
    requires DeriveCodec(c).Some?
    ensures IsOrdering(DeriveCodec(c).value.bitsOrdering, DeriveCodec(c).value.bitsInKey)
  {
    var chars := c.codedChars.value;
    var bits := DeriveCodec(c).value.bitsInKey;
    DeriveCodecShuffled(c);
    var r := ScrambleChars(SeedState(c.scramblingSeed), chars, Zeros(|chars|), 0, DrawBudget).value;
    assert OrderPlaced(bits, seq(bits, _ => false), []);
    ScrambleBitsPermutes(r.1, bits, seq(bits, _ => false), [], DrawBudget);
  }

  /** With a non-empty alphabet, the key's bits fit in key_length characters: 2^bits_in_key <= base^key_length. */
  lemma {:induction false} DeriveCodecFits(c: Config)
    requires DeriveCodec(c).Some? && |c.codedChars.value| >= 1
    ensures Pow2(DeriveCodec(c).value.bitsInKey) <= Power(|c.codedChars.value|, c.keyLength)
    ensures DeriveCodec(c).value.bitsInKey < 256
  {
    DeriveCodecConditions(c);
    var base, k := |c.codedChars.value|, c.keyLength as nat;
    var bits := DeriveCodec(c).value.bitsInKey;
    assert bits == BitsInKey(Power(base, k) % Modulus256);
    BitsInKeyFits(base, k);
  }

  lemma {:induction false} ZerosMultiset(n: nat)
    ensures multiset(Zeros(n)) == multiset{}[0 := n]
  {
    if n > 0 {
      ZerosMultiset(n - 1);
      assert Zeros(n) == Zeros(n - 1) + [0];
    }
  }

  /** With a repetition-free alphabet the shuffled alphabet has no repeats either. */
  lemma {:induction false} DeriveCodecDistinct(c: Config)
    requires DeriveCodec(c).Some? && Distinct(c.codedChars.value)
    ensures Distinct(DeriveCodec(c).value.codecCharacters)
  {
    DeriveCodecCharacters(c);
    DistinctPermutation(DeriveCodec(c).value.codecCharacters, c.codedChars.value);
  }

  // ---------------------------------------------------------------------------
  // The routine, step by step

  /** The alphabet-length loop: the number of characters before the terminator, or None once it passes 128. */
  method CountCharacters(chars: CString) returns (count: Option<nat>)
    ensures count.Some? <==> |chars| <= 128
    ensures count.Some? ==> count.value == |chars|
  {
    var n := 0;
    while n < |chars|
      invariant n <= |chars| && n <= 128
    {
      n := n + 1;
      if n > 128 {
        return None;
      }
    }
    return Some(n);
  }

  /** Step 1 of the key length: key_length multiplications of max_key by the base. */
  method ComputeMaxKey(base: nat, keyLength: nat) returns (maxKey: Option<nat>)
    ensures maxKey == MaxKeyFrom(1, base, keyLength)
  {
    var m: nat := 1;
    var remaining := keyLength;
    while remaining > 0
      invariant MaxKeyFrom(m, base, remaining) == MaxKeyFrom(1, base, keyLength)
    {
      var product := m * base;
      // `ignored` is the high half of the 512-bit product, m the low half.
      var ignored := product / Modulus256;
      HighHalfZero(product);
      m := product % Modulus256;
      remaining := remaining - 1;
      if ignored != 0 && remaining > 0 {
        return None;
      }
    }
    return Some(m);
  }

  /** The high half of a product is 0 exactly when the product fits in 256 bits. */
  lemma {:induction false} HighHalfZero(product: nat)
    ensures product / Modulus256 == 0 <==> product < Modulus256
  {
    QuotientBounds(product, Modulus256);
    if product < Modulus256 {
      MulDivCancel(0, product, Modulus256);
    }
  }

  /** Step 2 of the key length: count the halvings of max_key in an 8-bit counter, then take one off. */
  method CountBits(maxKey: nat) returns (bits: nat)
    ensures bits == BitsInKey(maxKey)
  {
    var m := maxKey;
    var count: nat := 0;
    while m != 0
      invariant count < 256 && (count + NumBits(m)) % 256 == NumBits(maxKey) % 256
      decreases m
    {
      CountStep(count, m, NumBits(maxKey) % 256);
      count := (count + 1) % 256;
      m := m / 2;
    }
    CountDone(count, NumBits(maxKey));
    bits := (count + 255) % 256;
  }

  /** Counting one more bit modulo 256 keeps the count congruent to the total. */
  lemma {:induction false} CountStep(count: nat, m: nat, total: nat)
    requires count < 256 && m != 0 && (count + NumBits(m)) % 256 == total
    ensures ((count + 1) % 256 + NumBits(m / 2)) % 256 == total
  {
    var k := NumBits(m / 2);
    assert NumBits(m) == 1 + k;
    ModAddLeft(count + 1, k);
  }

  lemma {:induction false} ModAddLeft(a: nat, k: nat)
    ensures (a % 256 + k) % 256 == (a + k) % 256
  {
    var q := a / 256;
    assert a == q * 256 + a % 256;
    MulDivCancel(q + (a % 256 + k) / 256, (a % 256 + k) % 256, 256);
  }

  /** The counter that has counted all bits modulo 256 gives BitsInKey. */
  lemma {:induction false} CountDone(count: nat, total: nat)
    requires count < 256 && count % 256 == total % 256
    ensures (count + 255) % 256 == (total + 255) % 256
  {
    ModAddLeft(total, 255);
  }

  /** One draw of the alphabet shuffle, with the drawn slot named. */
  lemma {:induction false} PlaceStep(x: nat, chars: seq<byte>, slots: seq<byte>, placed: nat, fuel: nat, slot: nat)
    requires placed < |chars| == |slots| && slot == Draw(x) % |chars|
    ensures ScrambleChars(x, chars, slots, placed, fuel + 1) ==
            if slots[slot] == 0 then ScrambleChars(Next(x), chars, slots[slot := chars[placed]], placed + 1, fuel)
            else ScrambleChars(Next(x), chars, slots, placed, fuel)
  {
    assert ScrambleChars(x, chars, slots, placed, fuel + 1) == PlaceDrawn(x, chars, slots, placed, fuel);
  }

  /** The alphabet shuffle on a heap buffer of `|chars|` slots, cleared to 0 first. */
  method ScrambleCharacters(rng: Rand48, chars: CString) returns (r: Option<seq<byte>>)
    modifies rng
    ensures var s := ScrambleChars(old(rng.state), chars, Zeros(|chars|), 0, DrawBudget);
            (r.Some? <==> s.Some?) && (r.Some? ==> r.value == s.value.0 && rng.state == s.value.1)
  {
    ghost var x0 := rng.state;
    var n := |chars|;
    var slots := new byte[n];
    var i := 0;
    while i < n
      invariant i <= n && forall k :: 0 <= k < i ==> slots[k] == 0
      modifies slots
    {
      slots[i] := 0;
      i := i + 1;
    }
    assert slots[..] == Zeros(n);
    ghost var target := ScrambleChars(x0, chars, Zeros(n), 0, DrawBudget);
    var placed := 0;
    var fuel := DrawBudget;
    while placed < n
      invariant placed <= n
      invariant ScrambleChars(rng.state, chars, slots[..], placed, fuel) == target
      decreases fuel
    {
      if fuel == 0 {
        return None;
      }
      ghost var x := rng.state;
      ghost var before := slots[..];
      var d := rng.Lrand48();
      fuel := fuel - 1;
      var slot := d % n;
      PlaceStep(x, chars, before, placed, fuel, slot);
      if slots[slot] == 0 {
        slots[slot] := chars[placed];
        assert slots[..] == before[slot := chars[placed]];
        placed := placed + 1;
      }
    }
    return Some(slots[..]);
  }

  /** The bit-position shuffle, with the `bits` flags and the `bit_indexes` buffer cleared first. */
  method ScrambleBitOrder(rng: Rand48, n: nat) returns (r: Option<seq<nat>>)
    modifies rng
    ensures var s := ScrambleBits(old(rng.state), n, seq(n, _ => false), [], DrawBudget);
            (r.Some? <==> s.Some?) && (r.Some? ==> r.value == s.value.0 && rng.state == s.value.1)
  {
    var taken := new bool[n];
    var order := new nat[n];
    for i := 0 to n
      invariant forall k :: 0 <= k < i ==> !taken[k] && order[k] == 0
      modifies taken, order
    {
      taken[i] := false;
      order[i] := 0;
    }
    assert taken[..] == seq(n, _ => false);
    var done := DrawBitOrder(rng, taken, order);
    if !done {
      return None;
    }
    return Some(order[..]);
  }

  /** One draw of the bit-position shuffle, with the drawn position named. */
  lemma {:induction false} TakeStep(x: nat, n: nat, flags: seq<bool>, before: seq<nat>, fuel: nat, p: nat)
    requires |flags| == n && |before| < n && p == Draw(x) % n
    ensures ScrambleBits(x, n, flags, before, fuel + 1) ==
            if !flags[p] then ScrambleBits(Next(x), n, flags[p := true], before + [p], fuel)
            else ScrambleBits(Next(x), n, flags, before, fuel)
  {
    assert ScrambleBits(x, n, flags, before, fuel + 1) == TakeDrawn(x, n, flags, before, fuel);
  }

  /** The rejection-sampling loop of the bit-position shuffle, filling `order` from cleared flags. */
  method DrawBitOrder(rng: Rand48, taken: array<bool>, order: array<nat>) returns (done: bool)
    requires taken.Length == order.Length
    modifies rng, taken, order
    ensures var s := ScrambleBits(old(rng.state), taken.Length, old(taken[..]), [], DrawBudget);
            (done <==> s.Some?) && (done ==> order[..] == s.value.0 && rng.state == s.value.1)
  {
    var n := taken.Length;
    ghost var target := ScrambleBits(rng.state, n, taken[..], [], DrawBudget);
    assert order[..0] == [];
    var scrambled := 0;
    var fuel := DrawBudget;
    while scrambled < n
      invariant scrambled <= n
      invariant ScrambleBits(rng.state, n, taken[..], order[..scrambled], fuel) == target
      decreases fuel
    {
      if fuel == 0 {
        return false;
      }
      ghost var x := rng.state;
      ghost var flags := taken[..];
      ghost var before := order[..scrambled];
      var d := rng.Lrand48();
      fuel := fuel - 1;
      var p := d % n;
      TakeStep(x, n, flags, before, fuel, p);
      if !taken[p] {
        order[scrambled] := p;
        taken[p] := true;
        assert order[..scrambled + 1] == before + [p];
        assert taken[..] == flags[p := true];
        scrambled := scrambled + 1;
      }
    }
    assert order[..scrambled] == order[..];
    return true;
  }

  /** mfLicensingInitializeCodecParams: the generator is reseeded with the scrambling seed before the shuffles. */
  method InitializeCodecParams(v: LicensingVector, rng: Rand48) returns (r: Option<Codec>)
    modifies rng
    ensures r == DeriveCodec(v.Snapshot())
    ensures var y := CodecState(v.Snapshot(), old(rng.state)); y.Some? ==> rng.state == y.value
  {
    if v.privateKey.None? || v.codedChars.None? {
      return None;
    }
    var chars := v.codedChars.value;
    var count := CountCharacters(chars);
    if count.None? || count.value > 100 {
      return None;
    }
    var base := count.value;
    if v.keyLength == 0 {
      return None;
    }
    var maxKey := ComputeMaxKey(base, v.keyLength);
    if maxKey.None? {
      return None;
    }
    var bits := CountBits(maxKey.value);
    rng.Seed48(v.scramblingSeed);
    var codecChars := ScrambleCharacters(rng, chars);
    if codecChars.None? {
      return None;
    }
    var order := ScrambleBitOrder(rng, bits);
    if order.None? {
      return None;
    }
    if v.indexBits >= bits {
      return None;
    }
    return Some(Codec(base, bits, codecChars.value, order.value));
  }
}
