/**
 The Base32 decoder: the alphabet table, padding removal, and the loop
 that shifts 5-bit symbol values into an `int` accumulator and writes a
 byte into a pre-sized array whenever eight bits are held.

 The specification of the loop is `DecodedBytes`: the 8-bit slices of
 the concatenated 5-bit values of the recognised symbols, followed by
 zero bytes up to the pre-computed output length.
 */
module Base32Decoder {
  import opened BitString

  datatype Option<T> = None | Some(value: T)

  /** The alphabet: position i holds the character whose value is i. */
  const Base32Chars: string := "ABCDEFGHIJKLMNOPQRSTUVWXYZ234567"

  /** The padding character, removed before decoding. */
  const Padding: char := '='

  /** Number of distinct 32-bit patterns of a Java `int`. */
  const IntModulus: nat := 0x1_0000_0000

  /** Largest value of a Java `int`. */
  const IntMax: nat := 0x7FFF_FFFF

  /** A 5-bit symbol value. */
  type Symbol = v: int | 0 <= v < 32

  /** The two's-complement bit pattern of a Java `int`, read unsigned. */
  type Word = x: int | 0 <= x < IntModulus

  /** The value a character stands for, derived from the character ranges
      A-Z (0..25) and 2-7 (26..31); the decode table is proved to agree.
      Only ASCII characters have a value, so each is one UTF-16 code unit. */
  function SymbolValue(c: char): (r: Option<Symbol>)
    ensures r.Some? ==> c as int < 0x80
  {
    if 'A' <= c <= 'Z' then Some(c as int - 'A' as int)
    else if '2' <= c <= '7' then Some(c as int - '2' as int + 26)
    else None
  }

  lemma AlphabetShape()
    ensures |Base32Chars| == 32
    ensures forall i :: 0 <= i < 26 ==> Base32Chars[i] as int == 'A' as int + i
    ensures forall i :: 26 <= i < 32 ==> Base32Chars[i] as int == '2' as int + i - 26
  {
  }

  /** Every alphabet position is decoded back to that position. */
  lemma AlphabetValue(i: nat)
    requires i < |Base32Chars|
    ensures SymbolValue(Base32Chars[i]) == Some(i)
  {
    AlphabetShape();
  }

  /** No two characters share a value. */
  lemma SymbolValueInjective(c: char, d: char)
    requires SymbolValue(c).Some? && SymbolValue(c) == SymbolValue(d)
    ensures c == d
  {
  }

  /** A character with a value stands at that position of the alphabet. */
  lemma AlphabetPosition(c: char)
    requires SymbolValue(c).Some?
    ensures Base32Chars[SymbolValue(c).value] == c
  {
    AlphabetShape();
  }

  /** The characters with a value are exactly those of the alphabet. */
  lemma AlphabetMembership(c: char)
    ensures SymbolValue(c).Some? <==> c in Base32Chars
  {
    if c in Base32Chars {
      var i :| 0 <= i < |Base32Chars| && Base32Chars[i] == c;
      AlphabetValue(i);
    }
    if SymbolValue(c).Some? {
      AlphabetPosition(c);
    }
  }

  /** Builds the table from `Base32Chars`, mapping the character at
      position i to i. */
  method CreateDecodeTable() returns (decodeTable: map<char, Symbol>)
    ensures forall i :: 0 <= i < |Base32Chars| ==>
      Base32Chars[i] in decodeTable && decodeTable[Base32Chars[i]] == i
    ensures forall c :: SymbolValue(c) == if c in decodeTable then Some(decodeTable[c]) else None
    ensures forall c :: 'a' <= c <= 'z' ==> c !in decodeTable
    ensures '0' !in decodeTable && '1' !in decodeTable && '8' !in decodeTable && '9' !in decodeTable
    ensures Padding !in decodeTable
    ensures 'U' in decodeTable && 'V' in decodeTable && decodeTable['U'] != decodeTable['V']
  {
    decodeTable := map[];
    for i := 0 to |Base32Chars|
      invariant forall j :: 0 <= j < i ==> Base32Chars[j] in decodeTable
      invariant forall c :: c in decodeTable ==> SymbolValue(c) == Some(decodeTable[c])
    {
      var c := Base32Chars[i];
      AlphabetValue(i);
      decodeTable := decodeTable[c := i];
    }
    forall i | 0 <= i < |Base32Chars|
      ensures decodeTable[Base32Chars[i]] == i
    {
      AlphabetValue(i);
    }
    forall c | SymbolValue(c).Some?
      ensures c in decodeTable
    {
      AlphabetPosition(c);
    }
    UnrecognisedCharacters();
  }

  /** Characters outside the alphabet: lower-case letters, the digits
      0, 1, 8 and 9, and the padding character. Upper-case U is in the
      alphabet with its own value; it is not read as V. */
  lemma UnrecognisedCharacters()
    ensures forall c :: 'a' <= c <= 'z' ==> SymbolValue(c) == None
    ensures SymbolValue('0') == SymbolValue('1') == SymbolValue('8') == SymbolValue('9') == None
    ensures SymbolValue(Padding) == None
    ensures SymbolValue('U') == Some(20) && SymbolValue('V') == Some(21)
  {
  }

  /** `s` with every padding character removed, wherever it stands. */
  function RemovePadding(s: string): (r: string)
    ensures |r| <= |s|
  {
    if s == [] then []
    else
      var init, last := s[..|s| - 1], s[|s| - 1];
      assert s == init + [last];
      RemovePadding(init) + (if last == Padding then [] else [last])
  }

  /** Padding removal drops exactly the padding characters: none is left,
      and every other character keeps its count. */
  lemma {:induction false} RemovePaddingContents(s: string)
    ensures Padding !in RemovePadding(s)
    ensures multiset(RemovePadding(s)) == multiset(s)[Padding := 0]
  {
    if s != [] {
      var init, last := s[..|s| - 1], s[|s| - 1];
      assert s == init + [last];
      RemovePaddingContents(init);
    }
  }

  /** The length Java reports for `s`: its number of UTF-16 code units, two
      for a character above U+FFFF (a surrogate pair) and one for any other. */
  function Utf16Length(s: string): (n: nat)
    ensures |s| <= n <= 2 * |s|
  {
    if s == [] then 0
    else Utf16Length(s[..|s| - 1]) + (if s[|s| - 1] as int >= 0x1_0000 then 2 else 1)
  }

  /** The values of the recognised characters of `w`, in order; every other
      character is skipped. */
  function Symbols(w: string): (vals: seq<Symbol>)
    ensures |vals| <= |w|
  {
    if w == [] then []
    else
      var init, last := w[..|w| - 1], w[|w| - 1];
      match SymbolValue(last)
      case Some(v) => Symbols(init) + [v]
      case None => Symbols(init)
  }

  /** The symbol values after one more character. */
  lemma SymbolsSnoc(w: string, c: char)
    ensures Symbols(w + [c]) == Symbols(w) + (if SymbolValue(c).Some? then [SymbolValue(c).value] else [])
  {
    assert (w + [c])[..|w|] == w;
  }

  /** The 5-bit big-endian groups of the symbol values, concatenated. */
  function Bits(vals: seq<Symbol>): (bits: seq<bool>)
    ensures |bits| == 5 * |vals|
  {
    if vals == [] then []
    else Bits(vals[..|vals| - 1]) + FromNat(vals[|vals| - 1], 5)
  }

  /** The bytes completed by the recognised characters of `data`: the
      8-bit slices of their 5-bit values, a last partial slice dropped. */
  function RecognisedBytes(data: string): (bytes: seq<Byte>)
    ensures |bytes| <= |RemovePadding(data)| * 5 / 8
  {
    Pack(Bits(Symbols(RemovePadding(data))))
  }

  /** The bytes the decoder returns for `data`: the recognised bytes, then
      zeros up to the length the output array was allocated with. That length
      counts the UTF-16 code units of the padding-free input, including those
      of the characters the loop skips. */
  function DecodedBytes(data: string): (bytes: seq<Byte>)
    ensures |bytes| == Utf16Length(RemovePadding(data)) * 5 / 8
  {
    var written := RecognisedBytes(data);
    written + Zeros(Utf16Length(RemovePadding(data)) * 5 / 8 - |written|)
  }

  /** Shifting the accumulator left by five and or-ing in the symbol value,
      on the 32-bit pattern of a Java `int`: the shift drops the top five bits
      and clears the low five, so the bitwise or adds `value`
      (`ShiftOrIsMultiplyAdd` checks this on `bv32`). */
  function ShiftIn(word: Word, value: Symbol): (r: Word)
    ensures r == (word * 32 + value) % IntModulus
  {
    ShiftParts(word, value, IntModulus / 32);
    (word * 32) % IntModulus + value
  }

  /** On 32-bit patterns the shift-and-or is a wrapping multiply-and-add:
      shifting left by five multiplies by 32, and or-ing in a value below 32
      adds it, because the shift leaves the low five bits clear. */
  lemma ShiftOrIsMultiplyAdd(word: bv32, value: bv32)
    requires value < 32
    ensures (word << 5) | value == word * 32 + value
  {
  }

  /** With a modulus of `32 * n`, shifting left by five bits leaves the low
      five bits clear, so adding a 5-bit value stays below the modulus. */
  lemma ShiftParts(word: nat, value: nat, n: nat)
    requires value < 32 && n > 0
    ensures (word * 32) % (32 * n) == 32 * (word % n)
    ensures 32 * (word % n) + value < 32 * n
    ensures (word * 32 + value) % (32 * n) == 32 * (word % n) + value
  {
    var q, r := word / n, word % n;
    DivModParts(word, n);
    ScaleParts(word, q, r, n, value);
    ScaleParts(word, q, r, n, 0);
    assert (q * 32) * n == q * (32 * n);
    ModUnique(word * 32, 32 * n, q, 32 * r);
    ModUnique(word * 32 + value, 32 * n, q, 32 * r + value);
  }

  /** The byte written on completion: the accumulator shifted right by
      `bitLength`, masked to eight bits and narrowed to a byte, i.e. the eight
      bits of the word starting `bitLength` bits from its least significant
      end. For `bitLength + 8 <= 32` the sign bits that Java's arithmetic shift
      brings in are masked off, so shifting the unsigned pattern gives the
      same byte. */
  function ExtractByte(word: Word, bitLength: nat): (b: Byte)
    requires bitLength + 8 <= 32
    ensures FromNat(b, 8) == FromNat(word, 32)[24 - bitLength..32 - bitLength]
  {
    WordByte(word, bitLength);
    FromNatToNat(FromNat(word, 32)[24 - bitLength..32 - bitLength]);
    ShiftRight(word, bitLength) % 256
  }

  /** Shifting a word right by `b` and keeping eight bits reads bits
      `24 - b` to `32 - b` of its 32-bit pattern, most significant first. */
  lemma WordByte(word: Word, b: nat)
    requires b + 8 <= 32
    ensures var bits := FromNat(word, 32); ShiftRight(word, b) % 256 == ToNat(bits[24 - b..32 - b])
  {
    var bits := FromNat(word, 32);
    Pow2Values();
    ToNatFromNat(word, 32);
    SmallMod(word, IntModulus);
    var high, top, rest := bits[..24 - b], bits[24 - b..32 - b], bits[32 - b..];
    assert bits == high + top + rest;
    ByteOfWord(high, top, rest, word);
    ShiftRightDivides(word, b);
  }

  /** Decodes `data`, as the Java method `bbase32Decode` does. */
  method BBase32Decode(data: string) returns (decodedData: array<Byte>)
    requires Utf16Length(RemovePadding(data)) * 5 <= IntMax
    ensures fresh(decodedData)
    ensures decodedData[..] == DecodedBytes(data)
  {
    var w := RemovePadding(data);
    var decodeTable := CreateDecodeTable();
    var bitLength := 0;
    var currentByte: Word := 0;
    var length := Utf16Length(w);
    decodedData := new Byte[length * 5 / 8](_ => 0);
    var decodedIndex := 0;
    AllZeros(decodedData[..]);
    for i := 0 to |w|
      invariant Run(w[..i], length) == LoopState(bitLength, currentByte, decodedIndex, decodedData[..])
    {
      var c := w[i];
      RunNext(w, i, length);
      if c !in decodeTable {
        continue;
      }
      var value := decodeTable[c];
      currentByte := ShiftIn(currentByte, value);
      bitLength := bitLength + 5;
      if bitLength >= 8 {
        bitLength := bitLength - 8;
        decodedData[decodedIndex] := ExtractByte(currentByte, bitLength);
        decodedIndex := decodedIndex + 1;
      }
    }
    assert w[..|w|] == w;
    RunDecodes(data);
  }

  /** The loop variables `bitLength`, `currentByte` and `decodedIndex`, and
      the contents of the output array, as one value. */
  datatype LoopState = LoopState(bitLength: int, currentByte: Word, decodedIndex: int, decodedData: seq<Byte>)

  /** One pass of the loop body on a character whose value is `value`:
      shift the value in, count five more bits, and when eight are held
      write the byte above the bits still pending. */
  function Step(s: LoopState, value: Symbol): (t: LoopState)
    requires 0 <= s.bitLength < 8
    requires s.bitLength + 5 >= 8 ==> 0 <= s.decodedIndex < |s.decodedData|
    ensures |t.decodedData| == |s.decodedData|
  {
    var word := ShiftIn(s.currentByte, value);
    if s.bitLength + 5 >= 8 then
      var bitLength := s.bitLength + 5 - 8;
      LoopState(bitLength, word, s.decodedIndex + 1, s.decodedData[s.decodedIndex := ExtractByte(word, bitLength)])
    else
      LoopState(s.bitLength + 5, word, s.decodedIndex, s.decodedData)
  }

  /** The loop state once the characters `w` have been read, from a
      padding-free input of `inputLength` code units: a character without a
      value changes nothing. Fewer than eight bits are held, and the bytes
      written and the bits held never exceed the five bits per character
      read. */
  ghost function Run(w: string, inputLength: nat): (s: LoopState)
    requires |w| <= inputLength
    ensures 0 <= s.bitLength < 8 && 0 <= s.decodedIndex
    ensures 8 * s.decodedIndex + s.bitLength <= 5 * |w|
    ensures |s.decodedData| == inputLength * 5 / 8
  {
    if w == [] then LoopState(0, 0, 0, Zeros(inputLength * 5 / 8))
    else
      var s := Run(w[..|w| - 1], inputLength);
      match SymbolValue(w[|w| - 1])
      case None => s
      case Some(value) => Step(s, value)
  }

  /** Reading character `i` of `w` is `Step` on its value, or nothing when
      it has none; a byte the step completes fits in the output array. */
  lemma RunNext(w: string, i: nat, inputLength: nat)
    requires i < |w| <= inputLength
    ensures var s, t := Run(w[..i], inputLength), Run(w[..i + 1], inputLength);
      SymbolValue(w[i]).None? ==> t == s
    ensures var s, t := Run(w[..i], inputLength), Run(w[..i + 1], inputLength);
      SymbolValue(w[i]).Some? ==>
        && t.currentByte == ShiftIn(s.currentByte, SymbolValue(w[i]).value)
        && (s.bitLength + 5 < 8 ==>
              t.bitLength == s.bitLength + 5 && t.decodedIndex == s.decodedIndex && t.decodedData == s.decodedData)
        && (s.bitLength + 5 >= 8 ==>
              && s.decodedIndex < |s.decodedData|
              && t.bitLength == s.bitLength + 5 - 8 && t.decodedIndex == s.decodedIndex + 1
              && t.decodedData == s.decodedData[s.decodedIndex := ExtractByte(t.currentByte, t.bitLength)])
  {
    assert w[..i + 1][..i] == w[..i];
  }

  /** An array whose every element is zero. */
  lemma AllZeros(a: seq<Byte>)
    requires forall j :: 0 <= j < |a| ==> a[j] == 0
    ensures a == Zeros(|a|)
  {
  }

  /** Once every character of the padding-free input has been read, the
      array holds the decoded bytes. */
  lemma RunDecodes(data: string)
    ensures Run(RemovePadding(data), Utf16Length(RemovePadding(data))).decodedData == DecodedBytes(data)
  {
    var w := RemovePadding(data);
    RunAccumulated(w, Utf16Length(w));
  }

  /** The loop's state `s` after the symbol values `vals`, read from an
      input of `inputLength` code units: fewer than eight bits are held, one
      byte has been written per eight bits read, the accumulator holds the
      low 32 bits of the value of all bits read, and the output holds the
      completed bytes followed by untouched zeros. */
  ghost predicate Accumulated(vals: seq<Symbol>, s: LoopState, inputLength: nat)
  {
    && |vals| <= inputLength
    && |s.decodedData| == inputLength * 5 / 8
    && 0 <= s.bitLength < 8
    && s.bitLength == 5 * |vals| % 8
    && 0 <= s.decodedIndex == 5 * |vals| / 8 <= |s.decodedData|
    && s.currentByte == ToNat(Bits(vals)) % IntModulus
    && s.decodedData == Pack(Bits(vals)) + Zeros(|s.decodedData| - s.decodedIndex)
  }

  /** The state `Run` reaches is the one `Accumulated` describes for the
      values of the recognised characters. */
  lemma {:induction false} RunAccumulated(w: string, inputLength: nat)
    requires |w| <= inputLength
    ensures Accumulated(Symbols(w), Run(w, inputLength), inputLength)
  {
    if w != [] {
      var init := w[..|w| - 1];
      RunAccumulated(init, inputLength);
      match SymbolValue(w[|w| - 1])
      case None =>
      case Some(value) =>
        AccumulateNext(Symbols(init), value, Run(init, inputLength), inputLength);
    }
  }

  /** One pass of the loop body on a recognised symbol keeps `Accumulated`. */
  lemma AccumulateNext(vals: seq<Symbol>, value: Symbol, s: LoopState, inputLength: nat)
    requires |vals| < inputLength
    requires Accumulated(vals, s, inputLength)
    requires s.bitLength + 5 >= 8 ==> s.decodedIndex < |s.decodedData|
    ensures Accumulated(vals + [value], Step(s, value), inputLength)
  {
    HeldBits(|vals|);
    AccumulateStep(vals, value, s.currentByte);
    if s.bitLength + 5 >= 8 {
      var t := Step(s, value);
      WriteNext(Pack(Bits(vals)), ExtractByte(t.currentByte, t.bitLength), |s.decodedData| - s.decodedIndex);
    }
  }

  /** `n` zero bytes: the initial contents of a fresh Java byte array. */
  function Zeros(n: nat): (z: seq<Byte>)
    ensures |z| == n && forall j :: 0 <= j < n ==> z[j] == 0
  {
    seq(n, _ => 0)
  }

  /** Writing the next byte into the zero-filled tail. */
  lemma WriteNext(written: seq<Byte>, b: Byte, n: nat)
    requires n > 0
    ensures (written + Zeros(n))[|written| := b] == (written + [b]) + Zeros(n - 1)
  {
  }

  /** How the count of held bits and of written bytes moves with one more
      5-bit symbol: at most one byte is completed per symbol. */
  lemma HeldBits(k: nat)
    ensures 5 * k % 8 + 5 >= 8 ==> 5 * (k + 1) % 8 == 5 * k % 8 - 3 && 5 * (k + 1) / 8 == 5 * k / 8 + 1
    ensures 5 * k % 8 + 5 < 8 ==> 5 * (k + 1) % 8 == 5 * k % 8 + 5 && 5 * (k + 1) / 8 == 5 * k / 8
  {
  }

  lemma SmallMod(v: nat, m: nat)
    requires v < m
    ensures v % m == v
  {
  }

  lemma ScaleParts(x: int, q: int, r: int, m: int, v: int)
    requires x == q * m + r
    ensures x * 32 + v == (q * 32) * m + (r * 32 + v)
  {
  }

  /** The bits of one more symbol go after the bits of the earlier ones. */
  lemma BitsSnoc(vals: seq<Symbol>, value: Symbol)
    ensures Bits(vals + [value]) == Bits(vals) + FromNat(value, 5)
  {
    assert (vals + [value])[..|vals|] == vals;
  }

  /** The value of the bits read so far, after one more symbol. */
  lemma BitsValueSnoc(vals: seq<Symbol>, value: Symbol)
    ensures ToNat(Bits(vals + [value])) == ToNat(Bits(vals)) * 32 + value
  {
    var bits, group := Bits(vals), FromNat(value, 5);
    BitsSnoc(vals, value);
    Pow2Values();
    ToNatAppend(bits, group);
    ToNatFromNat(value, 5);
    SmallMod(value, 32);
  }

  /** Shifting a symbol into the low 32 bits of a number gives the low 32
      bits of the shifted number. */
  lemma ShiftInLowBits(x: nat, value: Symbol)
    ensures ShiftIn(x % IntModulus, value) == (x * 32 + value) % IntModulus
  {
    var m: nat := IntModulus;
    var word := x % m;
    DivModParts(x, m);
    ScaleParts(x, x / m, word, m, value);
    ModAddMultiple(word * 32 + value, x / m * 32, m);
  }

  /** The accumulator stays the low 32 bits of the value of all bits read. */
  lemma WordStep(vals: seq<Symbol>, value: Symbol, word: Word)
    requires word == ToNat(Bits(vals)) % IntModulus
    ensures ShiftIn(word, value) == ToNat(Bits(vals + [value])) % IntModulus
  {
    BitsValueSnoc(vals, value);
    ShiftInLowBits(ToNat(Bits(vals)), value);
  }

  /** One recognised symbol: a byte is due exactly when the held bits reach
      eight, and it is the 8-bit slice the accumulator holds above the bits
      still pending. */
  lemma {:induction false} AccumulateStep(vals: seq<Symbol>, value: Symbol, word: Word)
    requires word == ToNat(Bits(vals)) % IntModulus
    ensures ShiftIn(word, value) == ToNat(Bits(vals + [value])) % IntModulus
    ensures 5 * |vals| % 8 + 5 < 8 ==> Pack(Bits(vals + [value])) == Pack(Bits(vals))
    ensures 5 * |vals| % 8 + 5 >= 8 ==>
      Pack(Bits(vals + [value])) == Pack(Bits(vals)) + [ExtractByte(ShiftIn(word, value), 5 * |vals| % 8 - 3)]
  {
    WordStep(vals, value, word);
    var bits, group := Bits(vals), FromNat(value, 5);
    var bits' := Bits(vals + [value]);
    BitsSnoc(vals, value);
    PackSnoc(bits, group);
    var held := |bits| % 8;
    if held + 5 >= 8 {
      var k, b := |bits| / 8, 5 * |vals| % 8 - 3;
      assert |bits'| == 8 * k + 8 + b;
      CompletedByte(bits', ShiftIn(word, value), k, b);
    }
  }

  /** The byte `ExtractByte` takes from an accumulator holding the low 32
      bits of `bits`, when `bits` ends fewer than 32 bits after byte `k`, is
      byte `k` of the bit string. */
  lemma CompletedByte(bits: seq<bool>, word: Word, k: nat, b: nat)
    requires |bits| == 8 * k + 8 + b && b + 8 <= 32
    requires word == ToNat(bits) % IntModulus
    ensures ExtractByte(word, b) == ToNat(bits[8 * k..8 * k + 8])
  {
    var high, top, rest := bits[..8 * k], bits[8 * k..8 * k + 8], bits[8 * k + 8..];
    Split3(bits, 8 * k, 8 * k + 8);
    Pow2Values();
    ShiftRightDivides(word, b);
    ByteOfWord(high, top, rest, word);
  }
}
