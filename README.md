# MFLicensing in Dafny

This project models the two C files at the heart of MFLicensing:

- **MFMathLib** (`mfmathlib.c`): fixed-width unsigned arithmetic on little-endian byte buffers. It provides zero, copy, extend, add, subtract, shift, compare, zero test, OR, multiply and divide. Most routines take a pointer and a byte count.
- **The licensing core** (`mflicensing.c`): a licensing vector, and a codec derived from it.
  - The vector holds a 256-bit private key, an alphabet, a key length, a number of index bits, and two `drand48` seeds.
  - The codec is the alphabet size, the number of key bits, a shuffled alphabet and a shuffled bit order.
  - License generation turns an index and a 128-bit digest into a string of `key_length` characters.
  - Validation decodes such a string, recovers the index, regenerates the license for it and compares.

Modules, one per file:

| module | file | what it holds |
|---|---|---|
| `WideValue` | wide_value.dfy | `Value(s)`, the number a little-endian byte sequence stands for, and the arithmetic facts about it |
| `BufferOps` | buffer_ops.dfy | the buffer routines of MFMathLib as methods on `array<byte>`, each proved against `Value` |
| `Native` | native.dfy | `mfMultiplyU8`, `mfDivideU8`, `mfDivideU16` and `mfDivideU32`, which use C's `*`, `/` and `%` directly |
| `Multiply` | multiply.dfy | `mfMultiplyUX`, specified by the column algorithm it runs (`Product`) and by the exact product |
| `Divide` | divide.dfy | `mfDivideUX`, restoring binary long division |
| `Drand48` | drand48.dfy | the POSIX `drand48` generator (`seed48`, `srand48`, `lrand48`) and the two `randomize…` helpers |
| `Vector` | vector.dfy | the licensing vector as a class, with its setters |
| `PrimeKey` | prime.dfy | `mfLicensingInitializePrivateKeyFromPrime` |
| `Codec` | codec.dfy | `mfLicensingInitializeCodecParams`: the pure derivation `DeriveCodec` and the method proved equal to it |
| `License` | license.dfy | generation and validation: the specification functions `GenerateSpec` and `ValidateSpec`, the methods proved equal to them, and the round trip |

How the buffers are modelled:

- A C pointer plus a width becomes an `array<byte>` plus `bytes: nat`.
- Each method states the value of the first `bytes` bytes afterwards and that every later byte is unchanged.
- Inside the licensing routines, the 256-bit buffers (validator, binary key, products, quotients) are plain numbers. The byte routines that compute them are the ones proved in `BufferOps`, `Multiply` and `Divide`.
- `drand48` is modelled as the 48-bit linear congruential generator that POSIX specifies. Its state is the field of a `Rand48` object that the routines update.

## Model

| member | source | states |
|---|---|---|
| BufferOps.ZeroX | Pods/MFMathLib/MathLib/mfmathlib.c:65-70 | the first `bytes` bytes become 0 (value 0); later bytes keep their contents |
| BufferOps.CopyX | Pods/MFMathLib/MathLib/mfmathlib.c:46-51 | the first `bytes` bytes of d equal those of s; later bytes of d keep their contents |
| BufferOps.UintExtX | Pods/MFMathLib/MathLib/mfmathlib.c:29-42 | d holds the low min(bytes, 4) little-endian bytes of s, followed by zeros, so its value is s mod 256^min(bytes, 4); byte 0 is written even when bytes is 0 |
| BufferOps.AddUX | Pods/MFMathLib/MathLib/mfmathlib.c:86-100 | d + carry·256^bytes equals a1 + a2; the carry is 1 exactly when the sum does not fit; later bytes untouched |
| BufferOps.PropagateBorrow | Pods/MFMathLib/MathLib/mfmathlib.c:134-147 | the borrow loop takes 256^(i+1) from the number; it reports underflow exactly when it runs off the top, leaving every higher byte at 255 |
| BufferOps.SubtractByte | Pods/MFMathLib/MathLib/mfmathlib.c:130-151 | one step of the subtraction loop takes sb·256^i from the left-over buffer, wrapping modulo 256^bytes exactly when it underflows |
| BufferOps.SubtractUX | Pods/MFMathLib/MathLib/mfmathlib.c:121-158 | d = (s1 − s2) mod 256^bytes; the result is 1 exactly when s2 > s1 |
| BufferOps.ShiftRightValue | Pods/MFMathLib/MathLib/mfmathlib.c:176-183 | the byte-wise right shift halves the value |
| BufferOps.ShiftRightXBy1 | Pods/MFMathLib/MathLib/mfmathlib.c:176-183 | the buffer becomes the byte-wise shift of its old contents, whose value is half the old value; a width of 0 still shifts byte 0 |
| BufferOps.ShiftLeftInValue | Pods/MFMathLib/MathLib/mfmathlib.c:194-200 | the byte-wise left shift doubles the value modulo 256^bytes |
| BufferOps.ShiftLeftExact | Pods/MFMathLib/MathLib/mfmathlib.c:194-200 | when the top bit is clear, the left shift doubles the value exactly |
| BufferOps.ShiftLeftXBy1 | Pods/MFMathLib/MathLib/mfmathlib.c:194-200 | the buffer becomes the byte-wise shift of its old contents, whose value is twice the old value modulo 256^bytes |
| BufferOps.Shift128Right32 | Pods/MFMathLib/MathLib/mfmathlib.c:169-175 | the three high 32-bit limbs move down one place and the top limb becomes 0, dividing the value by 2^32 |
| BufferOps.TopDifferingByte | Pods/MFMathLib/MathLib/mfmathlib.c:212-222 | the higher byte at the most significant position where two buffers differ makes the larger number |
| BufferOps.CompareUX | Pods/MFMathLib/MathLib/mfmathlib.c:212-222 | Greater exactly when e > r, Smaller exactly when e < r, Equal exactly when the buffers are equal |
| BufferOps.IsZeroX | Pods/MFMathLib/MathLib/mfmathlib.c:237-244 | returns 1 exactly when the value is 0, otherwise 0 |
| BufferOps.OrSeqValue | Pods/MFMathLib/MathLib/mfmathlib.c:255-260 | the byte-wise OR of two buffers has the bitwise OR of their values as its value |
| BufferOps.OrX | Pods/MFMathLib/MathLib/mfmathlib.c:255-260 | d becomes the byte-wise OR of s1 and s2, with value Or(s1, s2); later bytes untouched |
| Native.MultiplyU8 | Pods/MFMathLib/MathLib/mfmathlib.c:331-336 | low byte + 256 · high byte is the product of the two bytes |
| Native.DivideU8AsWritten | Pods/MFMathLib/MathLib/mfmathlib.c:384-394 | −1 exactly for divisor 0; otherwise the quotient is right and the "remainder" is n − q |
| Native.DivideU8Wrong | Pods/MFMathLib/MathLib/mfmathlib.c:391-392 | 7 / 2 yields quotient 3 and remainder 4, which do not recompose to 7 |
| Native.DivideU8 | Pods/MFMathLib/MathLib/mfmathlib.c:384-394 | −1 exactly for divisor 0; otherwise n = q·d + r with r < d |
| Native.Word16 | Pods/MFMathLib/MathLib/mfmathlib.c:402-403 | `(h8 << 8) + l8` is the little-endian value of the two bytes |
| Native.DivideU16AsWritten | Pods/MFMathLib/MathLib/mfmathlib.c:395-411 | −1 exactly when both divisor bytes are 0; otherwise q = n / d and the "remainder" is n − q |
| Native.DivideU16Wrong | Pods/MFMathLib/MathLib/mfmathlib.c:404-409 | 7 / 2 yields quotient 3 and remainder 4 here as well |
| Native.DivideU16 | Pods/MFMathLib/MathLib/mfmathlib.c:395-411 | −1 exactly for divisor 0; otherwise n = q·d + r with r < d, in two bytes each |
| Native.Word32Value | Pods/MFMathLib/MathLib/mfmathlib.c:414-418 | OR-ing the four shifted bytes gives the little-endian value, because the shifted bytes do not overlap |
| Native.DivideU32 | Pods/MFMathLib/MathLib/mfmathlib.c:412-439 | −1 exactly for divisor 0; otherwise n = q·d + r with r < d, in four bytes each |
| Multiply.ColumnSum | Pods/MFMathLib/MathLib/mfmathlib.c:287-294 | the inner loop adds the byte products of one column (the convolution term of the product) and stays below 2^23 |
| Multiply.AccumulateColumn | Pods/MFMathLib/MathLib/mfmathlib.c:295-301 | extending the column sum, adding it to the accumulator and shifting the accumulator down one byte is one `ColumnStep` |
| Multiply.ColumnStepExact | Pods/MFMathLib/MathLib/mfmathlib.c:295-301 | with an accumulator of at least 4 bytes, the emitted byte plus 256 × the new accumulator is the old accumulator plus the column sum |
| Multiply.LowColumns | Pods/MFMathLib/MathLib/mfmathlib.c:286-303 | the first loop writes the first `bytes` digits that the column algorithm emits |
| Multiply.HighColumns | Pods/MFMathLib/MathLib/mfmathlib.c:304-321 | the second loop writes the next `bytes` − 1 digits |
| Multiply.PolyProduct | Pods/MFMathLib/MathLib/mfmathlib.c:286-322 | summing all the columns with their weights gives the product of the two numbers |
| Multiply.MultiplyProduct | Pods/MFMathLib/MathLib/mfmathlib.c:273-330 | for an accumulator of at least 4 bytes, the digits the algorithm emits make up the exact product |
| Multiply.MultiplyUX | Pods/MFMathLib/MathLib/mfmathlib.c:273-330 | d ++ o is exactly what the column algorithm emits; for 4 bytes or more, d + o·256^bytes is s1·s2 |
| Multiply.ColumnStepNarrow | Pods/MFMathLib/MathLib/mfmathlib.c:295-301 | with a 2-byte accumulator, adding a column sum of 256 loses the carry into the emitted digit |
| Multiply.MultiplyU16Narrow | Pods/MFMathLib/MathLib/mfmathlib.c:337 | mfMultiplyU16 of 16 by 16 yields the digits [0, 1, 1, 1], which is not 256 |
| Multiply.MultiplyExactUX | Pods/MFMathLib/MathLib/mfmathlib.c:273-330 | with the accumulator at least 4 bytes wide, d + o·256^bytes is s1·s2 for every width |
| Divide.AlignDivisor | Pods/MFMathLib/MathLib/mfmathlib.c:365-368 | the shifted divisor is D·2^k with its top bit set, and the bit buffer holds 2^k |
| Divide.DoubleShifted | Pods/MFMathLib/MathLib/mfmathlib.c:366-367 | one alignment step doubles the shifted divisor and the bit without overflowing |
| Divide.RestoreStep | Pods/MFMathLib/MathLib/mfmathlib.c:370-375 | one restoring step keeps n = q·D + left-over with left-over < D·2^j, then halves the divisor and the bit |
| Divide.RestoreQuotient | Pods/MFMathLib/MathLib/mfmathlib.c:369-376 | the restoring loop ends with n = q·D + left-over and left-over < D |
| Divide.RestoredDivision | Pods/MFMathLib/MathLib/mfmathlib.c:369-377 | the invariant at bit 0 is the division identity n = q·D + r with r < D |
| Divide.DivideUX | Pods/MFMathLib/MathLib/mfmathlib.c:350-383 | −1 exactly for a zero divisor, writing nothing; otherwise n = q·d + r with r < d |
| Drand48.Rand48.Seed48 | MFLicensing/mflicensing.c:205 | the state becomes the three seed words, low word first |
| Drand48.SeedStateWords | MFLicensing/mflicensing.c:205 | the 48-bit state reads back as the three seed words |
| Drand48.Rand48.Srand48 | MFLicensing/mflicensing.c:573 | the state becomes the seed in the high 32 bits and 0x330E in the low 16 |
| Drand48.SrandStateWords | MFLicensing/mflicensing.c:573 | the state reads back as 0x330E and the low 32 bits of the seed |
| Drand48.Rand48.Lrand48 | MFLicensing/mflicensing.c:214 | returns the top 31 bits of the next state, so the result is below 2^31, and advances the state by one LCG step |
| Drand48.LimbsRead | MFLicensing/mflicensing.c:574-577 | limb i of the assembled number is the i-th draw |
| Drand48.Randomize128UsingIntSeed | MFLicensing/mflicensing.c:571-578 | the 128-bit block is the four draws after srand48(seed), one per 32-bit limb; the generator has advanced four steps |
| Drand48.Randomize128Layout | MFLicensing/mflicensing.c:571-578 | the block is below 2^128 and every limb is below 2^31 |
| Drand48.Randomize256UsingSeed | MFLicensing/mflicensing.c:579-590 | the 256-bit block is the eight draws after seed48(seed), one per 32-bit limb; the generator has advanced eight steps |
| Drand48.Randomize256Layout | MFLicensing/mflicensing.c:579-590 | the block is below 2^256 and every limb is below 2^31 |
| Vector.DefaultAlphabet | MFLicensing/mflicensing.c:16 | the default alphabet has 30 characters, all distinct |
| Vector.LicensingVector.InitializeDefaultVector | MFLicensing/mflicensing.c:28-40 | the default alphabet, key length 25, 25 index bits, the two fixed seeds and no private key |
| Vector.LicensingVector.SetPrivateKey | MFLicensing/mflicensing.c:41-50 | a key is stored (0) exactly when its top byte is not 0 and it is odd; otherwise the key is cleared (−1); nothing else changes |
| Vector.AcceptableKeyRange | MFLicensing/mflicensing.c:45-48 | an accepted key is an odd number in [256^31, 256^32), so it is never 0 |
| Vector.CheckEncodingCharacters | MFLicensing/mflicensing.c:51-79 | 100 or more characters, or a repeated first character, are refused; an empty string is stored; any other string never returns |
| Vector.LicensingVector.SetEncodingCharacters | MFLicensing/mflicensing.c:51-79 | the outcome is `CheckEncodingCharacters`; the alphabet is set only when the call returns 0; nothing else changes |
| Vector.DefaultAlphabetDiverges | MFLicensing/mflicensing.c:65-76 | even the library's own default alphabet makes the setter loop forever |
| Vector.LicensingVector.SetEncodingCharactersFixed | MFLicensing/mflicensing.c:51-79 | with the outer index advanced, a string is stored exactly when it has fewer than 100 characters, all distinct |
| Vector.LicensingVector.SetKeyLength | MFLicensing/mflicensing.c:81-85 | stores any length and returns 0; nothing else changes |
| Vector.LicensingVector.SetKeyIndexLength | MFLicensing/mflicensing.c:86-93 | stores the count and returns 0 exactly when it is at most 32; otherwise returns −1 and keeps the old count |
| Vector.LicensingVector.SetScramblingSeed | MFLicensing/mflicensing.c:94-100 | the scrambling seed becomes the three given words; nothing else changes |
| Vector.LicensingVector.SetSaltSeed | MFLicensing/mflicensing.c:101-107 | the salt seed becomes the three given words; nothing else changes |
| PrimeKey.InitializePrivateKeyFromPrime | MFLicensing/mflicensing.c:109-142 | status and key are those of `ParsePrime` on the decimal string |
| PrimeKey.ReadingIsModular | MFLicensing/mflicensing.c:117-131 | while the scan goes on, the key is the decimal value of the digits read so far, modulo 2^256 |
| PrimeKey.ParsedKey | MFLicensing/mflicensing.c:117-141 | an accepted string is all digits, and the key is its value mod 2^256; it is odd with a non-zero top byte |
| PrimeKey.ParseInRange | MFLicensing/mflicensing.c:117-141 | for a number below 2^256 the key is the number; it is accepted exactly when it is odd and at least 2^248; there is never an overflow |
| PrimeKey.ParseNonDigit | MFLicensing/mflicensing.c:122-130 | a string with a non-digit is never accepted |
| PrimeKey.ParseWrapsAround | MFLicensing/mflicensing.c:124-127 | the decimal form of 3·2^255 + 1 is accepted, as the different number 2^255 + 1 |
| PrimeKey.ScanCheckedExact | MFLicensing/mflicensing.c:117-131 | when the multiply overflow is checked too, the scan reads numbers below 2^256 exactly and stops with an overflow on larger ones |
| PrimeKey.ParsePrimeCheckedExact | MFLicensing/mflicensing.c:109-142 | with the overflow checked, a digit string is accepted exactly when its value is odd and in [2^248, 2^256), and the key is then that value |
| Codec.CountCharacters | MFLicensing/mflicensing.c:155-164 | counting succeeds exactly when the alphabet has at most 128 characters, and then gives its length |
| Codec.ComputeMaxKey | MFLicensing/mflicensing.c:175-191 | the multiply loop computes `MaxKeyFrom(1, base, key_length)` |
| Codec.MaxKeyClosedForm | MFLicensing/mflicensing.c:180-191 | the loop fails exactly when base^(key_length−1) does not fit in 256 bits; otherwise it gives base^key_length mod 2^256 |
| Codec.CountBits | MFLicensing/mflicensing.c:193-199 | the shift loop and the final decrement give `BitsInKey(max_key)`: the bit count minus 1, modulo 256 |
| Codec.NumBitsRange | MFLicensing/mflicensing.c:194-197 | a non-zero number lies between 2^(bits−1) and 2^bits |
| Codec.BitsInKeyIs | MFLicensing/mflicensing.c:193-199 | for a non-zero key bound, bits_in_key is the position of its top bit |
| Codec.BitsInKeyFits | MFLicensing/mflicensing.c:175-199 | 2^bits_in_key ≤ base^key_length, so every number of bits_in_key bits can be written in key_length digits |
| Codec.WrappedBits | MFLicensing/mflicensing.c:184-199 | the last multiplication is not checked for overflow, yet even when it wraps (to 0 included) 2^bits_in_key ≤ base^key_length and bits_in_key < 256 |
| Codec.BitsInKeyTight | MFLicensing/mflicensing.c:193-199 | when base^key_length fits in 256 bits, it is below 2^(bits_in_key+1) |
| Codec.ScrambleCharacters | MFLicensing/mflicensing.c:205-220 | the shuffled alphabet and the new generator state are those of `ScrambleChars` from the current state |
| Codec.ScrambleCharsPermutes | MFLicensing/mflicensing.c:209-219 | the scrambled alphabet is a permutation of the alphabet |
| Codec.DrawBitOrder | MFLicensing/mflicensing.c:231-241 | the rejection-sampling loop computes `ScrambleBits` from the current generator state |
| Codec.ScrambleBitOrder | MFLicensing/mflicensing.c:225-243 | the bit ordering and the new generator state are those of `ScrambleBits` |
| Codec.ScrambleBitsPermutes | MFLicensing/mflicensing.c:232-241 | the bit ordering is a permutation of 0 .. bits_in_key − 1 |
| Codec.InitializeCodecParams | MFLicensing/mflicensing.c:144-255 | the codec parameters are `DeriveCodec` of the vector; the generator is left as it was when the routine returns before seed48, and otherwise in the state after both shuffles (`CodecState`) |
| Codec.DeriveCodecConditions | MFLicensing/mflicensing.c:150-252 | a codec exists only with a key and an alphabet of at most 100 characters, a non-zero key length, base^(key_length−1) below 2^256 and index_bits < bits_in_key |
| Codec.DeriveCodecBuilds | MFLicensing/mflicensing.c:150-252 | conversely, with all those conditions met and both shuffles finishing, a codec exists, with bits_in_key = BitsInKey(base^key_length mod 2^256) |
| Codec.DeriveCodecRefuses | MFLicensing/mflicensing.c:150-252 | each of those conditions failing makes the derivation fail |
| Codec.DeriveCodecShuffled | MFLicensing/mflicensing.c:205-243 | the codec's alphabet and bit order come from shuffling with the scrambling seed |
| Codec.DerivedState | MFLicensing/mflicensing.c:205-243 | after a successful derivation the generator is in the state the shuffles leave from seed48 with the scrambling seed, whatever state it started from |
| Codec.UnseededState | MFLicensing/mflicensing.c:150-191 | a derivation that fails before seed48 leaves the generator untouched |
| Codec.DeriveCodecCharacters | MFLicensing/mflicensing.c:205-220 | the codec's alphabet is a permutation of the vector's alphabet |
| Codec.DeriveCodecDistinct | MFLicensing/mflicensing.c:205-220 | a codec built from distinct characters has distinct characters |
| Codec.DeriveCodecOrdering | MFLicensing/mflicensing.c:221-243 | the codec's bit order is a permutation of the key bits |
| Codec.DeriveCodecFits | MFLicensing/mflicensing.c:175-199 | the key bits fit in key_length digits of the alphabet, and there are fewer than 256 of them |
| License.ValidatorBound | MFLicensing/mflicensing.c:357-363 | the validator is below the private key, and so below 2^256 |
| License.ComputeValidator | MFLicensing/mflicensing.c:344-365 | the validator is the high 256 bits of salt · (digest · index block), modulo the private key; the generator is left 8 draws after seed48 with the salt seed |
| License.PlaceRead | MFLicensing/mflicensing.c:369-389 | slot `bits_ordering[j]` holds logical bit j: an index bit first, then a validator bit |
| License.PlaceIndexBits | MFLicensing/mflicensing.c:370-379 | places the index_bits low index bits; what is left of the index is 0 exactly when the index fits in index_bits bits |
| License.PlaceValidatorBits | MFLicensing/mflicensing.c:383-389 | places the validator bits in the remaining slots |
| License.FlattenBits | MFLicensing/mflicensing.c:391-398 | the shift-and-OR loop reads the slots as a binary number, slot 0 most significant |
| License.FlatBound | MFLicensing/mflicensing.c:391-398 | the flattened key is below 2^bits_in_key |
| License.Encode | MFLicensing/mflicensing.c:417-428 | the encoding has key_length characters, all from the alphabet |
| License.EncodeKey | MFLicensing/mflicensing.c:417-428 | the division loop writes `Encode` and leaves `Leftover` |
| License.LeftoverZero | MFLicensing/mflicensing.c:430-438 | a number below base^key_length leaves nothing after key_length divisions |
| License.GenerateConsumesKey | MFLicensing/mflicensing.c:430-438 | the "something went wrong" branch is unreachable: the binary key always fits in key_length digits |
| License.GenerateLicense | MFLicensing/mflicensing.c:257-446 | the license is `GenerateSpec` of the vector, digest and index; with a codec the generator ends 8 draws after seed48 with the salt seed, without one it is where the codec derivation left it |
| License.GenerateOutcome | MFLicensing/mflicensing.c:257-446 | a license is produced exactly when the codec exists, the index fits in index_bits bits and the binary key is not 0; it has key_length characters of the codec alphabet |
| License.GenerateNonZeroIndex | MFLicensing/mflicensing.c:370-407 | a non-zero index that fits always yields a license |
| License.GeneratedEncoding | MFLicensing/mflicensing.c:391-428 | a generated license is the encoding of a binary key in (0, 2^256) that fits in key_length digits |
| License.CodecCharactersNonZero | MFLicensing/mflicensing.c:424 | characters taken from the codec alphabet are never NUL, so a license is a C string |
| License.ScannedLength | MFLicensing/mflicensing.c:473-480 | the length scan gives the length of strings of at most 101 characters, and 101 for longer ones |
| License.ScanLength | MFLicensing/mflicensing.c:473-480 | the scan loop computes `ScannedLength` |
| License.WeightFrom | MFLicensing/mflicensing.c:491-497 | the weight is the first position of the character in the codec alphabet, or none when it is absent |
| License.FindWeight | MFLicensing/mflicensing.c:491-497 | the search returns the first position of the character, or the alphabet size when it is absent |
| License.DecodeKey | MFLicensing/mflicensing.c:487-514 | the decoding loop computes `Decode`: none for an unknown character or a value of 2^256 or more |
| License.DecodeEncode | MFLicensing/mflicensing.c:487-514 | with distinct characters, decoding the encoding of a number below base^key_length and 2^256 gives back the number |
| License.ReadKey | MFLicensing/mflicensing.c:471-520 | the binary key is the decoded number when the scanned length equals key_length and decoding succeeds, and 0 otherwise |
| License.ExplodeFlat | MFLicensing/mflicensing.c:524-530 | splitting the flattened key back into bits gives the slots |
| License.ExplodeKey | MFLicensing/mflicensing.c:524-530 | the bit buffer is `Explode` of the binary key |
| License.GatherIndex | MFLicensing/mflicensing.c:533-540 | reading the index slots back, highest first, gives the index |
| License.GatherIndexBits | MFLicensing/mflicensing.c:533-540 | the gathering loop computes `Gather`, with 32-bit wrap-around |
| License.GatherPlaced | MFLicensing/mflicensing.c:369-540 | gathering from the exploded flat key gives back the index that was placed |
| License.IndexRecovered | MFLicensing/mflicensing.c:369-540 | the index read out of a generated key is the index it was generated for |
| License.ReadIndex | MFLicensing/mflicensing.c:524-540 | explode and gather give `RecoveredIndex` |
| License.SameCharacters | MFLicensing/mflicensing.c:556-564 | the comparison succeeds exactly when the first key_length characters are equal |
| License.ValidateLicense | MFLicensing/mflicensing.c:448-569 | the verdict is `ValidateSpec` of the vector, digest and string; when a non-zero key was read and the license regenerated (`Regenerates`) the generator ends 8 draws after seed48 with the salt seed, otherwise it is where the codec derivation left it |
| License.ValidateAccepts | MFLicensing/mflicensing.c:448-569 | an accepted string starts with the license generated for some index; it has exactly key_length characters, unless key_length is 101 |
| License.RoundTripCount | MFLicensing/mflicensing.c:481-564 | a generated license passes every step after the length scan |
| License.RoundTrip | MFLicensing/mflicensing.c:448-569 | with distinct alphabet characters and key_length ≤ 101, every generated license validates |
| License.ValidateRefusesLongKeys | MFLicensing/mflicensing.c:473-481 | with key_length ≥ 102, no string validates |
| License.LongKeysDerive | MFLicensing/mflicensing.c:150-252 | with a two-letter alphabet bits_in_key is key_length for every key length, and a codec exists exactly when both shuffles finish and index_bits < key_length |
| License.LongKeysGenerate | MFLicensing/mflicensing.c:257-481 | with a two-letter alphabet and key_length ≥ 102, once the shuffles finish every non-zero index that fits in index_bits < key_length bits gets a license, and that license does not validate |
| License.RoundTripWhole | MFLicensing/mflicensing.c:448-569 | when the whole string is scanned, every generated license validates, whatever key_length is |

## Left out

- Memory: `malloc` failure, `free` and the exact buffer sizes are not modelled. Every allocation is taken to succeed, and each temporary buffer is a fresh array.
- Aliasing: the source passes the same buffer as input and output to `mfSubstractUX`, `mfMultiplyUX` and `mforX`. Those routines read their inputs before writing the output, and the model states each result in terms of the inputs on entry.
- Multiply.MultiplyUX, Multiply.MultiplyExactUX: require d and o to be different buffers. When they are the same, the final copies at mfmathlib.c:323-324 write o over d, and the model does not describe that outcome.
- Divide.DivideUX: requires q to be a buffer of its own. q is zeroed at mfmathlib.c:361 before n and d are read, and when q is r the copy of the remainder at mfmathlib.c:377 overwrites the quotient; neither outcome is described.
- Vector.LicensingVector.SetPrivateKey, Vector.LicensingVector.SetEncodingCharacters: the source stores the caller's pointer (mflicensing.c:48 and :77), and the model stores a copy of the key and the alphabet. A later write through the caller's pointer, which changes the vector in C, is not modelled.
- The per-width wrappers `mfCopy8` … `mfDivideU1024` (mfmathlib.c:52-444): each one is its `…X` routine at a fixed width and is not repeated. The 8-bit variants with bodies of their own (`mfAddU8`, `mfCompareU8`, `mfIsZero8`, `mfShiftRight8By1`, `mfShiftLeft8By1`, `mfor8`) compute what the `…X` routine computes for one byte.
- The digest: the MD5 hash is an input (`Digest`), and computing it is not part of this model.
- The commented-out `fprintf` tracing in the licensing routines.
- Byte order: storing a 32-bit draw through an `unsigned int *` in the `randomize…` helpers is modelled as little-endian, as on the platforms the library targets.
- `drand48` itself lives in the C library. It is modelled as the POSIX 48-bit generator (multiplier 0x5DEECE66D, increment 11), with the calls as methods on a `Rand48` object.
- Codec.ScrambleChars: the shuffle loop of mflicensing.c:213-219 has no bound on its draws. The model gives it a budget of 2^56 draws, and `DeriveCodec` fails if the budget runs out. That the LCG's full period reaches every slot well within the budget is not proved.
- Codec.ScrambleBits: the same draw budget bounds the bit-order shuffle of mflicensing.c:233-241.
- License.GenerateLicense: requires a non-empty alphabet whenever one is set. With an empty alphabet the codec can still be derived: the shuffle loop at mflicensing.c:213 is not entered, bits_in_key wraps to 255, and the bit shuffle at :234 divides by 255. The encoding loop then divides by a base of 0 at :423. `mfDivideU256` returns −1 before writing the quotient or the remainder (mfmathlib.c:352), and :424 indexes the empty `codec_characters` buffer with the uninitialised remainder, which is undefined in C.
- Vector.CheckEncodingCharacters: a call that never returns is reported as the outcome `Diverges`, and the model does not run the loop forever.
- PrimeKey.InitializePrivateKeyFromPrime: it returns the key as a number rather than writing the 32 bytes of the key structure. `-EINVAL` and `-EOVERFLOW` are the outcomes `InvalidArgument` and `Overflow`.

## Findings

| source | as written | input that shows it | evidently intended | confidence | as-written member | corrected member |
|---|---|---|---|---|---|---|
| Pods/MFMathLib/MathLib/mfmathlib.c:392 | `mfDivideU8` stores n − q as the remainder | n = 7, d = 2 gives q = 3, r = 4 | r = n % d | high; not executed | Native.DivideU8Wrong | Native.DivideU8 |
| Pods/MFMathLib/MathLib/mfmathlib.c:407 | `mfDivideU16` stores n16 − q16 as the remainder | n = 7, d = 2 gives q = 3, r = 4 | r16 = n16 % d16 | high; not executed | Native.DivideU16Wrong | Native.DivideU16 |
| Pods/MFMathLib/MathLib/mfmathlib.c:295-301 | the accumulator of `mfMultiplyUX` is only `bytes` wide, so for 1 to 3 bytes the column sum is truncated and its carries are lost (`mfMultiplyU16`) | 16 · 16 with mfMultiplyU16 gives d = 0x0100, o = 0x0101 instead of 256 | an accumulator of at least 4 bytes | high; not executed | Multiply.MultiplyU16Narrow | Multiply.MultiplyExactUX |
| MFLicensing/mflicensing.c:65-76 | the outer index `char_i` of the duplicate check is never advanced | the default alphabet "ACDEFGHJKLMNPQRSTUVWXYZ2345679" never returns | advance `char_i` after each pass | high; not executed | Vector.DefaultAlphabetDiverges | Vector.LicensingVector.SetEncodingCharactersFixed |
| MFLicensing/mflicensing.c:124-127 | the overflow `o` of the multiply by 10 is ignored; only the carry of the add is checked | the decimal form of 3·2^255 + 1 is accepted as the key 2^255 + 1 | return `-EOVERFLOW` when `o` is not 0 | high; not executed | PrimeKey.ParseWrapsAround | PrimeKey.ParsePrimeCheckedExact |
| MFLicensing/mflicensing.c:474-478 | the length scan stops after 101 characters | key_length = 102, a two-letter alphabet and index_bits < 102: every non-zero index that fits gets a license (once the shuffles finish), and none of them validates | scan the whole string | high; not executed | License.LongKeysGenerate | License.RoundTripWhole |
