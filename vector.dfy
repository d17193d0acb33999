/**
  The licensing vector (mfLicensingVector): the parameters every license is
  generated and validated with, and the routines that fill it in.

  The C structure holds a pointer to the private key and a pointer to a
  NUL-terminated alphabet; here it holds their contents, `None` standing for
  the null pointer.  A C string is the sequence of its bytes before the
  terminator, so none of them is 0.
*/
module Vector {
  import opened WideValue
  import opened Drand48

  datatype Option<T> = None | Some(value: T)

  /** The bytes of a NUL-terminated string, without the terminator. */
  type CString = s: seq<byte> | forall i :: 0 <= i < |s| ==> s[i] != 0

  /** The 32 little-endian bytes of an mfU256; byte 0 is `l128...l8`, byte 31 is `h128...h8`. */
  type Bytes256 = s: seq<byte> | |s| == 32 witness seq(32, i => 0)

  /** The contents of an mfLicensingVector. */
  datatype Config = Config(
    privateKey: Option<Bytes256>,
    codedChars: Option<CString>,
    scramblingSeed: SeedWords,
    saltSeed: SeedWords,
    keyLength: byte,
    indexBits: byte)

  /** defaultEncodingCharacters: "ACDEFGHJKLMNPQRSTUVWXYZ2345679" in ASCII. */
  const DefaultEncodingCharacters: CString :=
    [65, 67, 68, 69, 70, 71, 72, 74, 75, 76, 77, 78, 80, 81, 82, 83, 84, 85, 86, 87, 88, 89, 90,
     50, 51, 52, 53, 54, 55, 57]

  /** No character occurs twice. */
  predicate Distinct<T(==)>(s: seq<T>)
  {
    forall i, j :: 0 <= i < j < |s| ==> s[i] != s[j]
  }

  /** The library's default alphabet has 30 distinct characters. */
  lemma {:induction false} DefaultAlphabet()
    ensures |DefaultEncodingCharacters| == 30 && Distinct(DefaultEncodingCharacters)
  {
    var s := DefaultEncodingCharacters;
    assert forall i, j :: 0 <= i < j < 23 ==> s[i] < s[j];
    assert forall i, j :: 23 <= i < j < 30 ==> s[i] < s[j];
    assert forall i, j :: 0 <= i < 23 <= j < 30 ==> s[j] < s[i];
  }

  /** The key checks of mfLicensingSetPrivateKey: the top byte is not 0 and the number is odd. */
  predicate AcceptableKey(key: Bytes256)
  {
    key[31] != 0 && key[0] % 2 == 1
  }

  /** An acceptable key is an odd number of exactly 249 to 256 bits; in particular it is not 0. */
  lemma {:induction false} AcceptableKeyRange(key: Bytes256)
    requires AcceptableKey(key)
    ensures Pow256(31) <= Value(key) < Pow256(32) && Value(key) % 2 == 1
  {
    var low, top, P := Value(key[..31]), key[31] as int, Pow256(31);
    ValuePrefix(key, 31);
    assert key[..32] == key;
    ValueBound(key[..31]);
    TopByteRange(low, top, P, Value(key));
    assert Pow256(32) == 256 * P;
    ValueLowByte(key);
  }

  lemma {:induction false} TopByteRange(low: nat, top: nat, P: nat, v: nat)
    requires low < P && 1 <= top <= 255 && v == low + top * P
    ensures P <= v < 256 * P
  {
    MulMonotone(1, top, P);
    MulMonotone(top, 255, P);
  }

  /** The C routines that write the vector return this outcome; `Diverges` is a call that never returns. */
  datatype SetOutcome = Stored | Rejected | Diverges

  /**
    The outcome of mfLicensingSetEncodingCharacters as written: strings of 100
    or more characters are refused, an empty string is stored, and otherwise
    the duplicate scan compares character 0 with the others over and over,
    because its outer index is never advanced.
  */
  function CheckEncodingCharacters(chars: CString): (r: SetOutcome)
    ensures r == Stored <==> |chars| == 0
    ensures r == Rejected <==> |chars| >= 100 || (1 <= |chars| && chars[0] in chars[1..])
    ensures r == Diverges <==> 1 <= |chars| < 100 && chars[0] !in chars[1..]
  {
    if |chars| >= 100 then Rejected
    else if |chars| == 0 then Stored
    else if chars[0] in chars[1..] then Rejected
    else Diverges
  }

  /** Even the library's own default alphabet cannot be installed through the setter. */
  lemma {:induction false} DefaultAlphabetDiverges()
    ensures CheckEncodingCharacters(DefaultEncodingCharacters) == Diverges
  {
    DefaultAlphabet();
    var s := DefaultEncodingCharacters;
    assert forall k :: 0 <= k < |s[1..]| ==> s[1..][k] == s[k + 1] != s[0];
  }

  /** An mfLicensingVector. */
  class LicensingVector {
    var privateKey: Option<Bytes256>
    var codedChars: Option<CString>
    var scramblingSeed: SeedWords
    var saltSeed: SeedWords
    var keyLength: byte
    var indexBits: byte

    function Snapshot(): Config
      reads this
    {
      Config(privateKey, codedChars, scramblingSeed, saltSeed, keyLength, indexBits)
    }

    /** mfLicensingInitializeDefaultVector. */
    constructor InitializeDefaultVector()
      ensures codedChars == Some(DefaultEncodingCharacters) && privateKey == None
      ensures keyLength == 25 && indexBits == 25
      ensures scramblingSeed == [0x17B6, 0x69D0, 0x22D3] && saltSeed == [0xE7DF, 0x7514, 0x45B4]
    {
      codedChars := Some(DefaultEncodingCharacters);
      keyLength := 25;
      indexBits := 25;
      scramblingSeed := [0x17B6, 0x69D0, 0x22D3];
      saltSeed := [0xE7DF, 0x7514, 0x45B4];
      privateKey := None;
    }

    /** mfLicensingSetPrivateKey: store an acceptable key (0), or clear the key (-1). */
    method SetPrivateKey(key: Bytes256) returns (status: int)
      modifies this
      ensures status == 0 <==> AcceptableKey(key)
      ensures status == -1 <==> !AcceptableKey(key)
      ensures privateKey == (if status == 0 then Some(key) else None)
      ensures codedChars == old(codedChars) && scramblingSeed == old(scramblingSeed) && saltSeed == old(saltSeed)
      ensures keyLength == old(keyLength) && indexBits == old(indexBits)
    {
      if key[31] == 0 || key[0] % 2 == 0 {
        privateKey := None;
        return -1;
      }
      privateKey := Some(key);
      return 0;
    }

    /**
      mfLicensingSetEncodingCharacters as written.  The alphabet is cleared
      first; it is stored only when the call returns.
    */
    method SetEncodingCharacters(characters: CString) returns (outcome: SetOutcome)
      modifies this
      ensures outcome == CheckEncodingCharacters(characters)
      ensures codedChars == (if outcome == Stored then Some(characters) else None)
      ensures privateKey == old(privateKey) && scramblingSeed == old(scramblingSeed) && saltSeed == old(saltSeed)
      ensures keyLength == old(keyLength) && indexBits == old(indexBits)
    {
      codedChars := None;
      var count := 0;
      while count < |characters|
        invariant 0 <= count <= |characters| && count < 100
      {
        count := count + 1;
        if count >= 100 {
          return Rejected;
        }
      }
      var i := 0;
      if i < count {
        var c := characters[i];
        var j := i + 1;
        while j < count
          invariant i + 1 <= j <= count
          invariant c !in characters[i + 1..j]
        {
          if c == characters[j] {
            return Rejected;
          }
          j := j + 1;
        }
        assert characters[i + 1..j] == characters[1..];
        // i is never advanced, so every further pass of the outer loop is this one again.
        return Diverges;
      }
      codedChars := Some(characters);
      return Stored;
    }

    /**
      mfLicensingSetEncodingCharacters with the outer index advanced after
      each pass: an alphabet of fewer than 100 distinct characters is stored.
    */
    method SetEncodingCharactersFixed(characters: CString) returns (outcome: SetOutcome)
      modifies this
      ensures outcome == Stored <==> |characters| < 100 && Distinct(characters)
      ensures outcome == Rejected <==> !(|characters| < 100 && Distinct(characters))
      ensures codedChars == (if outcome == Stored then Some(characters) else None)
      ensures privateKey == old(privateKey) && scramblingSeed == old(scramblingSeed) && saltSeed == old(saltSeed)
      ensures keyLength == old(keyLength) && indexBits == old(indexBits)
    {
      codedChars := None;
      var count := 0;
      while count < |characters|
        invariant 0 <= count <= |characters| && count < 100
      {
        count := count + 1;
        if count >= 100 {
          return Rejected;
        }
      }
      var i := 0;
      while i < count
        invariant 0 <= i <= count
        invariant forall a, b :: 0 <= a < i && a < b < count ==> characters[a] != characters[b]
      {
        var c := characters[i];
        var j := i + 1;
        while j < count
          invariant i + 1 <= j <= count
          invariant forall b :: i < b < j ==> c != characters[b]
        {
          if c == characters[j] {
            return Rejected;
          }
          j := j + 1;
        }
        i := i + 1;
      }
      codedChars := Some(characters);
      return Stored;
    }

    /** mfLicensingSetKeyLength: any length is stored. */
    method SetKeyLength(characters: byte) returns (status: int)
      modifies this
      ensures status == 0 && keyLength == characters
      ensures privateKey == old(privateKey) && codedChars == old(codedChars)
      ensures scramblingSeed == old(scramblingSeed) && saltSeed == old(saltSeed) && indexBits == old(indexBits)
    {
      keyLength := characters;
      return 0;
    }

    /** mfLicensingSetKeyIndexLength: at most 32 index bits. */
    method SetKeyIndexLength(bits: byte) returns (status: int)
      modifies this
      ensures status == 0 <==> bits <= 32
      ensures status == -1 <==> bits > 32
      ensures indexBits == (if bits <= 32 then bits else old(indexBits))
      ensures privateKey == old(privateKey) && codedChars == old(codedChars)
      ensures scramblingSeed == old(scramblingSeed) && saltSeed == old(saltSeed) && keyLength == old(keyLength)
    {
      if bits > 32 {
        return -1;
      }
      indexBits := bits;
      return 0;
    }

    /** mfLicensingSetScramblingSeed: the three words are copied. */
    method SetScramblingSeed(seed: SeedWords) returns (status: int)
      modifies this
      ensures status == 0 && scramblingSeed == seed
      ensures privateKey == old(privateKey) && codedChars == old(codedChars) && saltSeed == old(saltSeed)
      ensures keyLength == old(keyLength) && indexBits == old(indexBits)
    {
      scramblingSeed := [seed[0], seed[1], seed[2]];
      return 0;
    }

    /** mfLicensingSetSaltSeed: the three words are copied. */
    method SetSaltSeed(seed: SeedWords) returns (status: int)
      modifies this
      ensures status == 0 && saltSeed == seed
      ensures privateKey == old(privateKey) && codedChars == old(codedChars) && scramblingSeed == old(scramblingSeed)
      ensures keyLength == old(keyLength) && indexBits == old(indexBits)
    {
      saltSeed := [seed[0], seed[1], seed[2]];
      return 0;
    }
  }
}
