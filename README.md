# Base32 decoder — a verified Dafny model

This project models the decoder of the `Base32Decoder` Java class. The class
turns a Base32 text into bytes:

- it removes every `=` padding character, anywhere in the text;
- it builds a table from the 32-character alphabet `A`–`Z`, `2`–`7` to the
  values 0–31;
- it allocates an output array of `length * 5 / 8` bytes, where `length` is
  the length of the text without padding, counted as Java counts it, in
  UTF-16 code units (`Utf16Length`);
- it reads the characters left to right and skips every one that is not in the
  table;
- for each recognised character it shifts the 5-bit value into an `int`
  accumulator and counts five more bits held;
- whenever eight or more bits are held, it writes the next byte from the
  accumulator.

The model has three modules:

- `BitString` (`bit_string.dfy`): bit strings read as big-endian numbers
  (`ToNat`, `FromNat`), their packing into bytes (`Pack`, `Unpack`) and the
  arithmetic behind Java's shifts and masks.
- `Base32Decoder` (`base32_decoder.dfy`): the alphabet and its decoding table,
  padding removal, the 32-bit accumulator and the decoding method itself.
  - `CreateDecodeTable` and `BBase32Decode` are imperative methods with the
    loops of the Java code. The output is a Dafny `array`.
  - `BBase32Decode` is proved against the specification function
    `DecodedBytes`. That function takes the recognised symbols, puts their
    5-bit groups side by side, packs them into bytes, and appends zero bytes up
    to the allocated length.
  - The ghost function `Run` replays the loop one character at a time.
    `RunAccumulated` proves that after each step the loop's four variables
    describe that bit string: the bits held, the write index, the low 32 bits
    of the accumulator, and the array contents.
- `DecoderProperties` (`decoder_properties.dfy`): properties of the decoder as
  a whole.
  - Padding may appear anywhere.
  - Unrecognised characters add nothing but output length: one zero byte at
    most for a character up to U+FFFF, two at most for one above it.
  - Output byte j is bits 8j to 8j+8 of the symbol bits when those bits
    exist, and 0 otherwise (the zero tail).
  - The decoder inverts a reference encoder (`Encode`, which follows section 6
    of RFC 4648), with or without trailing padding.
  - The test vector "foo" / `MZXW6===` from section 10 of RFC 4648 decodes as
    that section says.
  - Short inputs: `""` and `"A"` decode to no bytes, `"AB"` to the byte 0.

The class's doc comment describes Douglas Crockford's alphabet and says that
`u` and `U` decode as `V`. The code does neither. It uses the RFC 4648
alphabet, decodes `U` as 20 (and `V` as 21), and skips `u` like any other
lower-case letter. The model follows the code; `UnrecognisedCharacters` and
`CreateDecodeTable` state this behaviour.

Java's `int` accumulator is modelled by its 32-bit pattern, a `Word` in
`[0, 2^32)`:

- shifting left by five is multiplication by 32 modulo 2^32;
- or-ing in a 5-bit value into the cleared low bits is addition;
- the shift right followed by the `0xFF` mask takes eight bits of that
  pattern.

A Java `byte` is modelled by its unsigned bit pattern (`Byte`, 0–255).

## Model

| member | source | states |
|---|---|---|
| Base32Decoder.AlphabetShape | Base32Decoder.java:20 | the alphabet has 32 characters: positions 0–25 are `A`–`Z` and positions 26–31 are `2`–`7` |
| Base32Decoder.AlphabetValue | Base32Decoder.java:20 | the character at position i of the alphabet has the value i |
| Base32Decoder.SymbolValue | Base32Decoder.java:48-53 | the value the table lookup gives a character; only ASCII characters have one, so each recognised character is one UTF-16 code unit |
| Base32Decoder.AlphabetPosition | Base32Decoder.java:20 | a character with a value stands at that position of the alphabet |
| Base32Decoder.SymbolValueInjective | Base32Decoder.java:20 | no two characters share a value |
| Base32Decoder.AlphabetMembership | Base32Decoder.java:20 | a character has a value exactly when it occurs in the alphabet |
| Base32Decoder.CreateDecodeTable | Base32Decoder.java:22-29 | the table maps the alphabet's i-th character to i and holds no other key; lower-case letters, `0`, `1`, `8`, `9` and `=` are absent; `U` and `V` have different values |
| Base32Decoder.UnrecognisedCharacters | Base32Decoder.java:20-29 | lower-case letters, `0`, `1`, `8`, `9` and `=` have no value; `U` is 20 and `V` is 21, so `U` does not decode as `V` |
| Base32Decoder.RemovePadding | Base32Decoder.java:33 | removing padding never lengthens the text (`RemovePaddingContents` and `DecoderProperties.RemovePaddingAppend` give what it keeps, and in which order) |
| Base32Decoder.RemovePaddingContents | Base32Decoder.java:33 | removing padding leaves no `=` and keeps every other character with its multiplicity |
| Base32Decoder.Utf16Length | Base32Decoder.java:40 | the length Java's `String.length()` reports: between one and two code units per character, two exactly for characters above U+FFFF |
| Base32Decoder.Symbols | Base32Decoder.java:44-53 | the values of the recognised characters, in order: at most one per character (`SymbolsSnoc` gives the skip-or-lookup step) |
| Base32Decoder.SymbolsSnoc | Base32Decoder.java:45-53 | one more character adds its value if it has one and nothing otherwise |
| Base32Decoder.Bits | Base32Decoder.java:53-56 | the symbol values' 5-bit groups, most significant bit first, side by side: five bits per symbol (`DecoderProperties.BitsGroup` gives group i) |
| Base32Decoder.ShiftIn | Base32Decoder.java:56 | the new accumulator is (old × 32 + value) mod 2^32: the top five bits are lost and the value fills the low five |
| Base32Decoder.ShiftOrIsMultiplyAdd | Base32Decoder.java:56 | on 32-bit patterns, shifting left by five and or-ing in a value below 32 is the wrapping multiply-by-32-and-add on 32-bit patterns; that this equals `ShiftIn` on the integer reading of the pattern is argued, not proved |
| Base32Decoder.WordByte | Base32Decoder.java:64 | shifting a word right by b and keeping eight bits reads bits 24 − b to 32 − b of its 32-bit pattern |
| Base32Decoder.ExtractByte | Base32Decoder.java:64 | the byte written is the eight bits of the accumulator's 32-bit pattern that start b bits from its least significant end |
| Base32Decoder.ShiftInLowBits | Base32Decoder.java:56 | shifting a value into the low 32 bits of x gives the low 32 bits of x × 32 + value |
| Base32Decoder.BitsSnoc | Base32Decoder.java:53-56 | one more symbol appends its 5-bit group to the bit string |
| Base32Decoder.BitsValueSnoc | Base32Decoder.java:56 | the bit string's value after one more symbol is the old value × 32 plus the symbol's value |
| Base32Decoder.WordStep | Base32Decoder.java:56 | if the accumulator holds the low 32 bits of the bits read so far, it still does after the next symbol is shifted in |
| Base32Decoder.CompletedByte | Base32Decoder.java:62-64 | when 8k+8+b bits have been read and the accumulator holds their low 32 bits, the byte taken from bit position b is byte k of the bit string |
| Base32Decoder.AccumulateStep | Base32Decoder.java:53-65 | after one recognised symbol the accumulator still holds the low 32 bits of the bit string; fewer than 8 bits held completes no byte; otherwise exactly one byte is completed, and it is the byte the code extracts |
| Base32Decoder.Step | Base32Decoder.java:53-65 | one recognised character never changes the output array's length |
| Base32Decoder.Run | Base32Decoder.java:38-66 | after any prefix of the input fewer than 8 bits are held, the write index times 8 plus the bits held is at most 5 per character read, and the array keeps the length allocated from the input's code units |
| Base32Decoder.RunNext | Base32Decoder.java:44-65 | an unrecognised character leaves all state unchanged; a recognised one shifts its value in and adds five bits; at 8 or more bits it writes one byte at the write index, which is in bounds, and advances it |
| Base32Decoder.Zeros | Base32Decoder.java:40 | the contents of a fresh Java byte array: n bytes, each 0 |
| Base32Decoder.RunAccumulated | Base32Decoder.java:38-66 | after each prefix: bits held = 5n mod 8 and write index = 5n / 8 (n recognised symbols); the accumulator is the low 32 bits of their bit string; the array is the packed bytes followed by zeros |
| Base32Decoder.AccumulateNext | Base32Decoder.java:53-65 | one recognised symbol preserves that correspondence |
| Base32Decoder.RunDecodes | Base32Decoder.java:44-69 | after the whole padding-free input the array is `DecodedBytes` of the input |
| Base32Decoder.RecognisedBytes | Base32Decoder.java:40 | the bytes completed by the recognised symbols fit in the allocated array: at most 5 / 8 of the padding-free character count, which the code-unit count is never below |
| Base32Decoder.DecodedBytes | Base32Decoder.java:40 | the result has the allocated length: 5 / 8 of the padding-free length in UTF-16 code units, rounded down |
| Base32Decoder.BBase32Decode | Base32Decoder.java:31-70 | returns a new array holding exactly `DecodedBytes(data)` |
| DecoderProperties.RemovePaddingAppend | Base32Decoder.java:33 | padding removal works piecewise over a concatenation |
| DecoderProperties.RemovePaddingUnpadded | Base32Decoder.java:33 | a text without `=` is left unchanged |
| DecoderProperties.RemovePaddingIdempotent | Base32Decoder.java:33 | removing padding twice is the same as once |
| DecoderProperties.DecodedBytesUnpadded | Base32Decoder.java:31-40 | decoding the padding-free text gives the same bytes as decoding the text |
| DecoderProperties.PaddingAnywhere | Base32Decoder.java:33 | a `=` anywhere in the input, not only at the end, changes nothing in the output |
| DecoderProperties.SymbolsAppend | Base32Decoder.java:44-53 | the symbols of a concatenation are the symbols of each part, in order |
| DecoderProperties.Utf16LengthAppend | Base32Decoder.java:40 | code units add up over a concatenation |
| DecoderProperties.Utf16LengthBasic | Base32Decoder.java:40 | without characters above U+FFFF, the code-unit length is the character count |
| DecoderProperties.Utf16LengthRecognised | Base32Decoder.java:40 | a text of alphabet characters has one code unit per character |
| DecoderProperties.SymbolsCount | Base32Decoder.java:47-53 | when every character is recognised there is one symbol per character |
| DecoderProperties.BitsAppend | Base32Decoder.java:56 | the bits of concatenated symbol lists are the concatenated bits |
| DecoderProperties.BitsGroup | Base32Decoder.java:53-56 | bits 5i to 5i+5 are the i-th symbol's 5-bit value |
| DecoderProperties.SkipUnrecognised | Base32Decoder.java:47-50 | inserting an unrecognised, non-padding character anywhere leaves the completed bytes unchanged |
| DecoderProperties.SkipLength | Base32Decoder.java:33-40 | inserting a non-padding character adds its code units to the length the array is sized from: one, or two above U+FFFF |
| DecoderProperties.SkipUnrecognisedOutput | Base32Decoder.java:40-50 | inserting such a character keeps the output as a prefix, and any growth is zero bytes: at most one for a character up to U+FFFF and at most two above it |
| DecoderProperties.DecodedByteContent | Base32Decoder.java:62-64 | output byte j is the 8-bit slice j of the symbol bits when that slice is complete, and 0 otherwise |
| DecoderProperties.AllRecognised | Base32Decoder.java:40 | when every non-padding character is recognised, the output is exactly the completed bytes, with no zero tail |
| DecoderProperties.EncodeBitsSymbols | Base32Decoder.java:44-56 | the decoder's symbol and bit stages read back any bit string the reference encoder writes |
| DecoderProperties.EncodeUnpadded | Base32Decoder.java:33 | the reference encoding contains no `=`, so padding removal leaves it unchanged |
| DecoderProperties.RecogniseEncode | Base32Decoder.java:44-65 | the bytes completed while reading an encoding are the encoded bytes |
| DecoderProperties.EncodedLength | Base32Decoder.java:40 | the array allocated for an encoding of n bytes has exactly n bytes |
| DecoderProperties.DecodeEncode | Base32Decoder.java:31-70 | decoding the encoding of any byte sequence returns that byte sequence |
| DecoderProperties.DecodePaddedEncode | Base32Decoder.java:31-70 | the same holds with any number of trailing `=` |
| DecoderProperties.FooVector | Base32Decoder.java:31-70 | `MZXW6===` decodes to the bytes of "foo", as in section 10 of RFC 4648 |
| DecoderProperties.SkippedCharactersAddZero | Base32Decoder.java:40 | "ME" followed by two spaces completes one byte but yields two: a zero byte follows |
| DecoderProperties.SupplementaryCharacterAddsZero | Base32Decoder.java:40-50 | "ME" followed by U+1F600 (two code units, both skipped) decodes as "ME" followed by one zero byte |
| DecoderProperties.EmptyVector | Base32Decoder.java:31-70 | the empty text decodes to no bytes |
| DecoderProperties.OneCharacterVector | Base32Decoder.java:31-70 | one character is five bits, too few for a byte: "A" decodes to no bytes |
| DecoderProperties.TwoCharacterVector | Base32Decoder.java:31-70 | "AB" decodes to the single byte 0, the top eight of the ten bits 00000 00001 |
| BitString.ToNatFromNat | Base32Decoder.java:53-56 | reading back the width-bit form of x gives x mod 2^width |
| BitString.FromNatToNat | Base32Decoder.java:53-56 | writing a bit string's value in its own width gives the bit string back |
| BitString.ToNatAppend | Base32Decoder.java:56 | the value of a + b is value(a) × 2^\|b\| + value(b) |
| BitString.PackAt | Base32Decoder.java:64 | byte j of the packing is the value of bits 8j to 8j+8 |
| BitString.PackAppend | Base32Decoder.java:59-65 | bits after a whole number of bytes pack independently |
| BitString.PackSnoc | Base32Decoder.java:59-65 | appending fewer bits than complete two bytes adds the bytes that become complete, starting at the first unpacked bit |
| BitString.PackUnpack | Base32Decoder.java:64 | packing undoes unpacking |
| BitString.PackUnpackTail | Base32Decoder.java:59-64 | fewer than 8 trailing bits complete no byte |
| BitString.ByteOfWord | Base32Decoder.java:64 | in a word holding the low 32 bits of a bit string, shifting right by b and masking to 8 bits gives the 8 bits that end b bits before the end |
| BitString.ShiftRight | Base32Decoder.java:64 | shifting a non-negative number right by n bits never increases it; `ShiftRightDivides` gives its value, division by 2^n |
| BitString.ShiftRightDivides | Base32Decoder.java:64 | shifting a non-negative number right by n divides it by 2^n |

## Left out

- `base32Decode` (Base32Decoder.java:72-77) is left out. It converts the bytes to a `String` with the platform's default charset, which depends on the runtime environment.
- Base32Decoder.BBase32Decode: requires `5 × (padding-free length in code units) ≤ 2^31 − 1`. Java computes `length * 5` in 32-bit `int`; for longer inputs it overflows. The array size then becomes negative, which throws, or wrong. That overflow is not modelled.
- Base32Decoder.ExtractByte: models Java's arithmetic shift right on the accumulator's unsigned 32-bit pattern. The precondition `bitLength + 8 ≤ 32` is what makes the two agree. The loop only uses bit positions 0–4.
- Base32Decoder.RemovePadding: the regular-expression replacement is modelled by the character filter it computes for the literal pattern `=`. The regex engine is not modelled.
- The `HashMap<Character, Integer>` is modelled as a Dafny `map`. Hashing and boxing are not modelled.
- A Java `char` is a UTF-16 code unit; a Dafny `char` is a Unicode scalar value. The output length counts code units (`Utf16Length`), as Java does. The loop reads a character above U+FFFF once, where Java reads its two surrogate code units one after the other. No surrogate is in the table, so both skip it and the loop state is the same.
- Lone surrogates (an unpaired surrogate code unit) cannot be written in the model. Java skips them like any other unrecognised character.
- Java's signed `byte` is modelled by its unsigned bit pattern. The bits are the same; only their reading as a number differs.
- A `null` argument, which makes the Java code throw, cannot be written in the model: Dafny strings are values.
- The Crockford alphabet and the `u`/`U` → `V` mapping described in the class's doc comment are not modelled, because the code does not implement them.

## Findings

| source | as written | input that shows it | evidently intended | confidence | as-written member | corrected member |
|---|---|---|---|---|---|---|
| Base32Decoder.java:40 | the output array is sized from the padding-free length. That length still counts the characters the loop skips, so each unwritten slot stays a zero byte at the end of the result | `"ME  "` (two trailing spaces): the symbols 12, 4 complete the one byte 0x61, but a two-byte array is returned, ending in 0 | the result holds only the completed bytes. `DecoderProperties.SkipUnrecognised` proves that skipped characters then change nothing; `DecoderProperties.RecogniseEncode` proves that it inverts the encoder | medium; not executed | DecoderProperties.SkippedCharactersAddZero | Base32Decoder.RecognisedBytes |
