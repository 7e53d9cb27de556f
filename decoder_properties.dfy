/**
 Properties of the decoder's specification `DecodedBytes`: padding may
 stand anywhere, unrecognised characters only lengthen the zero tail,
 each output byte is an 8-bit slice of the 5-bit symbol values, and the
 canonical Base32 encoding of any byte sequence decodes back to it.
 */
module DecoderProperties {
  import opened BitString
  import opened Base32Decoder

  /** Padding removal works piecewise. */
  lemma {:induction false} RemovePaddingAppend(a: string, b: string)
    ensures RemovePadding(a + b) == RemovePadding(a) + RemovePadding(b)
  {
    if b == [] {
      assert a + b == a;
    } else {
      var init, last := b[..|b| - 1], b[|b| - 1];
      assert (a + b)[..|a + b| - 1] == a + init;
      assert (a + b)[|a + b| - 1] == last;
      RemovePaddingAppend(a, init);
    }
  }

  /** A string without padding characters is left alone. */
  lemma {:induction false} RemovePaddingUnpadded(s: string)
    requires Padding !in s
    ensures RemovePadding(s) == s
  {
    if s != [] {
      var init := s[..|s| - 1];
      assert s == init + [s[|s| - 1]];
      RemovePaddingUnpadded(init);
    }
  }

  /** Removing padding twice is removing it once. */
  lemma RemovePaddingIdempotent(s: string)
    ensures RemovePadding(RemovePadding(s)) == RemovePadding(s)
  {
    RemovePaddingContents(s);
    RemovePaddingUnpadded(RemovePadding(s));
  }

  /** Code units add up over a concatenation. */
  lemma {:induction false} Utf16LengthAppend(a: string, b: string)
    ensures Utf16Length(a + b) == Utf16Length(a) + Utf16Length(b)
  {
    if b == [] {
      assert a + b == a;
    } else {
      var init := b[..|b| - 1];
      assert (a + b)[..|a + b| - 1] == a + init;
      assert (a + b)[|a + b| - 1] == b[|b| - 1];
      Utf16LengthAppend(a, init);
    }
  }

  /** Without characters above U+FFFF there is one code unit per character. */
  lemma {:induction false} Utf16LengthBasic(s: string)
    requires forall i :: 0 <= i < |s| ==> s[i] as int < 0x1_0000
    ensures Utf16Length(s) == |s|
  {
    if s != [] {
      var init := s[..|s| - 1];
      assert forall i :: 0 <= i < |init| ==> init[i] == s[i];
      Utf16LengthBasic(init);
    }
  }

  /** Alphabet characters are each one code unit. */
  lemma Utf16LengthRecognised(s: string)
    requires forall i :: 0 <= i < |s| ==> SymbolValue(s[i]).Some?
    ensures Utf16Length(s) == |s|
  {
    forall i | 0 <= i < |s|
      ensures s[i] as int < 0x1_0000
    {
      assert SymbolValue(s[i]).Some?;
    }
    Utf16LengthBasic(s);
  }

  /** Decoding sees the input only after its padding is removed. */
  lemma DecodedBytesUnpadded(s: string)
    ensures DecodedBytes(RemovePadding(s)) == DecodedBytes(s)
  {
    RemovePaddingIdempotent(s);
  }

  /** A padding character anywhere in the input, not only at its end, is
      ignored. */
  lemma PaddingAnywhere(a: string, b: string)
    ensures DecodedBytes(a + [Padding] + b) == DecodedBytes(a + b)
  {
    RemovePaddingAppend(a + [Padding], b);
    RemovePaddingAppend(a, [Padding]);
    RemovePaddingAppend(a, b);
    assert RemovePadding([Padding]) == RemovePadding([]) + [];
    assert RemovePadding(a) + [] == RemovePadding(a);
  }

  /** The symbol values of a concatenation. */
  lemma {:induction false} SymbolsAppend(a: string, b: string)
    ensures Symbols(a + b) == Symbols(a) + Symbols(b)
  {
    if b == [] {
      assert a + b == a;
    } else {
      var init, last := b[..|b| - 1], b[|b| - 1];
      assert (a + b)[..|a + b| - 1] == a + init;
      assert (a + b)[|a + b| - 1] == last;
      SymbolsAppend(a, init);
    }
  }

  /** The bits of a concatenation of symbol values. */
  lemma {:induction false} BitsAppend(u: seq<Symbol>, v: seq<Symbol>)
    ensures Bits(u + v) == Bits(u) + Bits(v)
  {
    if v == [] {
      assert u + v == u;
    } else {
      var init, last := v[..|v| - 1], v[|v| - 1];
      var uv := u + v;
      assert uv[..|uv| - 1] == u + init;
      assert uv[|uv| - 1] == last;
      BitsAppend(u, init);
      Assoc(Bits(u), Bits(init), FromNat(last, 5));
    }
  }

  /** Bits [5i, 5i+5) hold the value of symbol `i`, most significant bit
      first. */
  lemma {:induction false} BitsGroup(vals: seq<Symbol>, i: nat)
    requires i < |vals|
    ensures Bits(vals)[5 * i..5 * i + 5] == FromNat(vals[i], 5)
    ensures ToNat(Bits(vals)[5 * i..5 * i + 5]) == vals[i]
  {
    var init := vals[..|vals| - 1];
    if i < |init| {
      BitsGroup(init, i);
      assert Bits(vals)[5 * i..5 * i + 5] == Bits(init)[5 * i..5 * i + 5];
    } else {
      assert Bits(vals)[5 * i..5 * i + 5] == FromNat(vals[i], 5);
    }
    ToNatFromNat(vals[i], 5);
    Pow2Values();
    ModUnique(vals[i], Pow2(5), 0, vals[i]);
  }

  /** A character outside the alphabet, other than padding, contributes
      nothing to the recognised bytes. */
  lemma SkipUnrecognised(a: string, c: char, b: string)
    requires SymbolValue(c) == None && c != Padding
    ensures RecognisedBytes(a + [c] + b) == RecognisedBytes(a + b)
    ensures RemovePadding(a + [c] + b) == RemovePadding(a) + [c] + RemovePadding(b)
  {
    RemovePaddingAppend(a + [c], b);
    RemovePaddingAppend(a, [c]);
    RemovePaddingAppend(a, b);
    assert RemovePadding([c]) == [c] by {
      assert [c][..0] == [];
    }
    var ra, rb := RemovePadding(a), RemovePadding(b);
    SymbolsAppend(ra + [c], rb);
    SymbolsAppend(ra, [c]);
    SymbolsAppend(ra, rb);
    assert Symbols([c]) == [] by {
      assert [c][..0] == [];
    }
    assert Symbols(ra) + [] == Symbols(ra);
  }

  /** As the decoder is written, such a character still counts towards the
      length of the output array: the output is the same bytes followed by
      as many more zeros as the extra character's code units make room for,
      at most one for a character up to U+FFFF and at most two above it. */
  lemma SkipUnrecognisedOutput(a: string, c: char, b: string)
    requires SymbolValue(c) == None && c != Padding
    ensures var x, y := DecodedBytes(a + b), DecodedBytes(a + [c] + b);
      && |x| <= |y| <= |x| + (if c as int >= 0x1_0000 then 2 else 1)
      && y[..|x|] == x
      && forall j :: |x| <= j < |y| ==> y[j] == 0
  {
    SkipUnrecognised(a, c, b);
    SkipLength(a, c, b);
  }

  /** The padding-free input gains the code units of `c`. */
  lemma SkipLength(a: string, c: char, b: string)
    requires c != Padding
    ensures Utf16Length(RemovePadding(a + [c] + b))
         == Utf16Length(RemovePadding(a + b)) + (if c as int >= 0x1_0000 then 2 else 1)
  {
    RemovePaddingAppend(a + [c], b);
    RemovePaddingAppend(a, [c]);
    RemovePaddingAppend(a, b);
    assert [c][..0] == [];
    assert RemovePadding([c]) == [c];
    var ra, rb := RemovePadding(a), RemovePadding(b);
    Utf16LengthAppend(ra + [c], rb);
    Utf16LengthAppend(ra, [c]);
    Utf16LengthAppend(ra, rb);
  }

  /** Byte `j` of the output is the value of bits [8j, 8j+8) of the
      recognised symbols' values when those bits exist, and zero otherwise. */
  lemma DecodedByteContent(data: string, j: nat)
    requires j < |DecodedBytes(data)|
    ensures var bits := Bits(Symbols(RemovePadding(data)));
      DecodedBytes(data)[j] == if 8 * j + 8 <= |bits| then ToNat(bits[8 * j..8 * j + 8]) else 0
  {
    var bits := Bits(Symbols(RemovePadding(data)));
    if j < |bits| / 8 {
      PackAt(bits, j);
    }
  }

  /** When every character left after padding removal is in the alphabet,
      the output holds exactly the recognised bytes, with no zero tail. */
  lemma AllRecognised(data: string)
    requires forall i :: 0 <= i < |RemovePadding(data)| ==> SymbolValue(RemovePadding(data)[i]).Some?
    ensures DecodedBytes(data) == RecognisedBytes(data)
  {
    var w := RemovePadding(data);
    SymbolsCount(w);
    Utf16LengthRecognised(w);
  }

  /** A string of alphabet characters has one symbol value per character. */
  lemma {:induction false} SymbolsCount(w: string)
    requires forall i :: 0 <= i < |w| ==> SymbolValue(w[i]).Some?
    ensures |Symbols(w)| == |w|
  {
    if w != [] {
      var init := w[..|w| - 1];
      assert forall i :: 0 <= i < |init| ==> init[i] == w[i];
      SymbolsCount(init);
    }
  }

  /** The canonical Base32 text of `bytes` in this alphabet, without
      padding: the bits of the bytes, zero-filled to a multiple of five,
      one character per 5-bit group. */
  function Encode(bytes: seq<Byte>): (s: string)
    ensures |s| == (8 * |bytes| + 4) / 5
    ensures forall i :: 0 <= i < |s| ==> SymbolValue(s[i]).Some?
  {
    var bits := Unpack(bytes);
    EncodeBits(bits + Fill(|bits|))
  }

  /** The zero bits that complete the last 5-bit group of `k` bits: fewer
      than five, and the groups number `k / 5` rounded up. */
  function Fill(k: nat): (f: seq<bool>)
    ensures |f| < 5 && (k + |f|) % 5 == 0 && (k + |f|) / 5 == (k + 4) / 5
  {
    FromNat(0, (5 - k % 5) % 5)
  }

  /** One alphabet character per 5-bit group of `bits`. */
  function EncodeBits(bits: seq<bool>): (s: string)
    requires |bits| % 5 == 0
    ensures |s| == |bits| / 5
    ensures forall i :: 0 <= i < |s| ==> SymbolValue(s[i]).Some?
  {
    if bits == [] then []
    else
      var group := bits[|bits| - 5..];
      Pow2Values();
      AlphabetValue(ToNat(group));
      EncodeBits(bits[..|bits| - 5]) + [Base32Chars[ToNat(group)]]
  }

  /** The symbol values of an encoding carry the encoded bits. */
  lemma {:induction false} EncodeBitsSymbols(bits: seq<bool>)
    requires |bits| % 5 == 0
    ensures Bits(Symbols(EncodeBits(bits))) == bits
  {
    if bits != [] {
      var init, group := bits[..|bits| - 5], bits[|bits| - 5..];
      Pow2Values();
      var v: Symbol := ToNat(group);
      var c := Base32Chars[v];
      var prefix := EncodeBits(init);
      assert EncodeBits(bits) == prefix + [c];
      AlphabetValue(v);
      SymbolsAppend(prefix, [c]);
      assert Symbols([c]) == [v] by {
        assert [c][..0] == [];
      }
      EncodeBitsSymbols(init);
      BitsSnoc(Symbols(prefix), v);
      FromNatToNat(group);
      Split2(bits, |bits| - 5);
    }
  }

  /** No character of an encoding is the padding character, so padding
      removal leaves it alone. */
  lemma EncodeUnpadded(bytes: seq<Byte>)
    ensures RemovePadding(Encode(bytes)) == Encode(bytes)
  {
    var s := Encode(bytes);
    forall i | 0 <= i < |s|
      ensures s[i] != Padding
    {
      UnrecognisedCharacters();
    }
    RemovePaddingUnpadded(s);
  }

  /** The recognised bytes of an encoding are the encoded bytes. */
  lemma RecogniseEncode(bytes: seq<Byte>)
    ensures RecognisedBytes(Encode(bytes)) == bytes
  {
    var bits := Unpack(bytes);
    var fill := Fill(|bits|);
    var s := Encode(bytes);
    assert s == EncodeBits(bits + fill);
    EncodeUnpadded(bytes);
    EncodeBitsSymbols(bits + fill);
    assert Bits(Symbols(RemovePadding(s))) == bits + fill;
    PackUnpackTail(bytes, fill);
  }

  /** An encoding of `n` bytes is long enough for exactly `n` bytes. */
  lemma EncodedLength(n: nat)
    ensures (8 * n + 4) / 5 * 5 / 8 == n
  {
  }

  /** Decoding the canonical encoding of any byte sequence gives it back,
      with no zero tail. */
  lemma DecodeEncode(bytes: seq<Byte>)
    ensures DecodedBytes(Encode(bytes)) == bytes
  {
    RecogniseEncode(bytes);
    EncodeUnpadded(bytes);
    Utf16LengthRecognised(Encode(bytes));
    EncodedLength(|bytes|);
    assert bytes + Zeros(0) == bytes;
  }

  /** A run of padding characters is removed entirely. */
  lemma {:induction false} RemovePaddingRun(n: nat)
    ensures RemovePadding(seq(n, _ => Padding)) == []
  {
    if n > 0 {
      assert seq(n, _ => Padding)[..n - 1] == seq(n - 1, _ => Padding);
      RemovePaddingRun(n - 1);
    }
  }

  /** The same with any number of padding characters after the text, as
      RFC 4648 appends them. */
  lemma DecodePaddedEncode(bytes: seq<Byte>, n: nat)
    ensures DecodedBytes(Encode(bytes) + seq(n, _ => Padding)) == bytes
  {
    var s, pad := Encode(bytes), seq(n, _ => Padding);
    RemovePaddingAppend(s, pad);
    RemovePaddingRun(n);
    assert RemovePadding(s) + [] == RemovePadding(s);
    DecodedBytesUnpadded(s + pad);
    DecodedBytesUnpadded(s);
    DecodeEncode(bytes);
  }

  /** Two characters complete one byte; two spaces after them are skipped,
      yet they lengthen the output by a zero byte. */
  lemma SkippedCharactersAddZero()
    ensures |RecognisedBytes("ME  ")| == 1
    ensures DecodedBytes("ME  ") == RecognisedBytes("ME  ") + [0]
  {
    SpacedUnpadded();
    SpacedSymbols();
    Utf16LengthBasic("ME  ");
    assert Utf16Length(RemovePadding("ME  ")) * 5 / 8 == 2;
    assert Zeros(1) == [0];
  }

  /** A character above U+FFFF is two code units: skipped after "ME", it
      lengthens the output by a zero byte, as two spaces do. */
  lemma SupplementaryCharacterAddsZero()
    ensures DecodedBytes("ME\U{1F600}") == DecodedBytes("ME") + [0]
  {
    SupplementarySymbols();
    assert Zeros(1) == [0];
  }

  /** "ME" followed by U+1F600: no padding, the values of M and E, and four
      code units where "ME" has two. */
  lemma SupplementarySymbols()
    ensures RemovePadding("ME\U{1F600}") == "ME\U{1F600}" && RemovePadding("ME") == "ME"
    ensures Symbols("ME\U{1F600}") == Symbols("ME")
    ensures Utf16Length("ME\U{1F600}") == 4 && Utf16Length("ME") == 2
  {
    var s := "ME\U{1F600}";
    assert s == "ME" + ['\U{1F600}'];
    assert Padding !in s && Padding !in "ME";
    RemovePaddingUnpadded(s);
    RemovePaddingUnpadded("ME");
    SymbolsSnoc("ME", '\U{1F600}');
    Utf16LengthBasic("ME");
    Utf16LengthAppend("ME", ['\U{1F600}']);
    assert ['\U{1F600}'][..0] == [];
  }

  /** No text decodes to nothing. */
  lemma EmptyVector()
    ensures DecodedBytes("") == []
  {
    assert RemovePadding("") == [];
  }

  /** One character holds five bits, too few for a byte. */
  lemma OneCharacterVector()
    ensures DecodedBytes("A") == []
  {
    assert Padding !in "A";
    RemovePaddingUnpadded("A");
    Utf16LengthBasic("A");
  }

  /** "AB" holds one byte: the top eight of the ten bits of A (0) and B (1). */
  lemma TwoCharacterVector()
    ensures DecodedBytes("AB") == [0]
  {
    ABSymbols();
    LeadingByte(0, 1);
    DecodedByteContent("AB", 0);
  }

  /** "AB": no padding, the values 0 and 1, and two code units. */
  lemma ABSymbols()
    ensures RemovePadding("AB") == "AB" && Symbols("AB") == [0, 1] && Utf16Length("AB") == 2
  {
    assert Padding !in "AB";
    RemovePaddingUnpadded("AB");
    Utf16LengthBasic("AB");
    SymbolsSnoc([], 'A');
    SymbolsSnoc("A", 'B');
    assert [] + "A" == "A" && "A" + "B" == "AB";
  }

  /** Of two symbol values `a` and `b`, the first eight bits are `a`
      followed by the top three bits of `b`. */
  lemma LeadingByte(a: Symbol, b: Symbol)
    ensures ToNat(Bits([a, b])[0..8]) == a * 8 + b / 4
  {
    var bits := Bits([a, b]);
    assert Bits([]) == [];
    BitsValueSnoc([], a);
    BitsValueSnoc([a], b);
    assert [] + [a] == [a] && [a] + [b] == [a, b];
    Split2(bits, 8);
    assert bits[0..8] == bits[..8];
    ToNatAppend(bits[..8], bits[8..]);
    assert Pow2(2) == 4;
    DivModParts(b, 4);
    ModUnique(a * 32 + b, 4, a * 8 + b / 4, b % 4);
    ModUnique(a * 32 + b, 4, ToNat(bits[..8]), ToNat(bits[8..]));
  }

  /** The recognised values of "ME  ": M is 12, E is 4, spaces have none. */
  lemma SpacedSymbols()
    ensures Symbols("ME  ") == [12, 4]
  {
    MESymbols();
    SymbolsSnoc("ME", ' ');
    SymbolsSnoc("ME ", ' ');
    assert "ME" + " " == "ME " && "ME " + " " == "ME  ";
  }

  /** "ME  " has no padding. */
  lemma SpacedUnpadded()
    ensures RemovePadding("ME  ") == "ME  "
  {
    assert Padding !in "ME  ";
    RemovePaddingUnpadded("ME  ");
  }

  lemma MESymbols()
    ensures Symbols("ME") == [12, 4]
  {
    SymbolsSnoc([], 'M');
    SymbolsSnoc("M", 'E');
    assert [] + "M" == "M" && "M" + "E" == "ME";
  }

  /** The test vector of section 10 of RFC 4648: "MZXW6===" is "foo". */
  lemma FooVector()
    ensures DecodedBytes("MZXW6===") == [0x66, 0x6F, 0x6F]
  {
    FooSymbols();
    FooLength();
    FooBits();
    var bytes: seq<Byte> := [0x66, 0x6F, 0x6F];
    PackUnpackTail(bytes, [false]);
    assert bytes + Zeros(0) == bytes;
  }

  /** Padding removed, the values of M, Z, X, W and 6. */
  lemma FooSymbols()
    ensures RemovePadding("MZXW6===") == "MZXW6"
    ensures Symbols("MZXW6") == [12, 25, 23, 22, 30]
  {
    FooUnpadded();
    SymbolsSnoc([], 'M');
    SymbolsSnoc("M", 'Z');
    SymbolsSnoc("MZ", 'X');
    SymbolsSnoc("MZX", 'W');
    SymbolsSnoc("MZXW", '6');
    assert [] + "M" == "M" && "M" + "Z" == "MZ" && "MZ" + "X" == "MZX";
    assert "MZX" + "W" == "MZXW" && "MZXW" + "6" == "MZXW6";
  }

  lemma FooLength()
    ensures Utf16Length("MZXW6") == 5
  {
    Utf16LengthBasic("MZXW6");
  }

  lemma FooUnpadded()
    ensures RemovePadding("MZXW6===") == "MZXW6"
  {
    var s := "MZXW6";
    assert "MZXW6===" == s + seq(3, _ => Padding);
    RemovePaddingAppend(s, seq(3, _ => Padding));
    RemovePaddingRun(3);
    assert Padding !in s;
    RemovePaddingUnpadded(s);
    assert s + [] == s;
  }

  /** The 25 bits of those values: the bits of "foo" and one zero bit. */
  lemma FooBits()
    ensures Bits([12, 25, 23, 22, 30]) == Unpack([0x66, 0x6F, 0x6F]) + [false]
  {
    FooSymbolsValue();
    FooBytesValue();
    SameValue(Bits([12, 25, 23, 22, 30]), Unpack([0x66, 0x6F, 0x6F]) + [false]);
  }

  /** Bit strings of one length and one value are equal. */
  lemma SameValue(a: seq<bool>, b: seq<bool>)
    requires |a| == |b| && ToNat(a) == ToNat(b)
    ensures a == b
  {
    FromNatToNat(a);
    FromNatToNat(b);
  }

  /** The value of the bits of M, Z, X, W and 6. */
  lemma FooSymbolsValue()
    ensures ToNat(Bits([12, 25, 23, 22, 30])) == 0xCCDEDE
  {
    FiveSymbolsValue(12, 25, 23, 22, 30);
  }

  /** Five symbol values make a 25-bit base-32 numeral. */
  lemma FiveSymbolsValue(a: Symbol, b: Symbol, c: Symbol, d: Symbol, e: Symbol)
    ensures ToNat(Bits([a, b, c, d, e])) == (((a * 32 + b) * 32 + c) * 32 + d) * 32 + e
  {
    ThreeSymbolsValue(a, b, c);
    BitsValueSnoc([a, b, c], d);
    BitsValueSnoc([a, b, c, d], e);
    assert [a, b, c] + [d] == [a, b, c, d] && [a, b, c, d] + [e] == [a, b, c, d, e];
  }

  /** Three symbol values make a 15-bit base-32 numeral. */
  lemma ThreeSymbolsValue(a: Symbol, b: Symbol, c: Symbol)
    ensures ToNat(Bits([a, b, c])) == (a * 32 + b) * 32 + c
  {
    assert Bits([]) == [];
    BitsValueSnoc([], a);
    BitsValueSnoc([a], b);
    BitsValueSnoc([a, b], c);
    assert [] + [a] == [a] && [a] + [b] == [a, b] && [a, b] + [c] == [a, b, c];
  }

  /** The value of the bits of "foo" followed by a zero bit. */
  lemma FooBytesValue()
    ensures ToNat(Unpack([0x66, 0x6F, 0x6F]) + [false]) == 0xCCDEDE
  {
    ThreeBytesValue(0x66, 0x6F, 0x6F);
    var bits := Unpack([0x66, 0x6F, 0x6F]) + [false];
    assert bits[..|bits| - 1] == Unpack([0x66, 0x6F, 0x6F]);
  }

  /** Three unpacked bytes make a 24-bit base-256 numeral. */
  lemma ThreeBytesValue(a: Byte, b: Byte, c: Byte)
    ensures ToNat(Unpack([a, b, c])) == (a * 256 + b) * 256 + c
  {
    var bytes := [a, b, c];
    var x, y, z := FromNat(a, 8), FromNat(b, 8), FromNat(c, 8);
    assert bytes[1..] == [b, c] && [b, c][1..] == [c] && [c][1..] == [];
    assert Unpack([c]) == z by { assert Unpack([c]) == z + Unpack([]); }
    assert Unpack([b, c]) == y + z;
    assert Unpack(bytes) == x + (y + z);
    Assoc(x, y, z);
    ByteBits(a);
    ByteBits(b);
    ByteBits(c);
    AppendByte(x, y, a, b);
    AppendByte(x + y, z, a * 256 + b, c);
  }
}
