/**
 Bit strings read most-significant-bit first, their numeric value, and
 their packing into bytes. This is the vocabulary in which the decoder's
 output is specified: a byte is an 8-bit slice of the concatenated 5-bit
 symbol values.
 */
module BitString {

  /** An 8-bit value. Java's `byte` is signed; the model keeps its bit
      pattern, read as an unsigned number 0..255. */
  type Byte = b: int | 0 <= b < 256

  function Pow2(n: nat): (r: nat)
    ensures r >= 1
  {
    if n == 0 then 1 else 2 * Pow2(n - 1)
  }

  lemma {:induction false} Pow2Add(a: nat, b: nat)
    ensures Pow2(a + b) == Pow2(a) * Pow2(b)
  {
    if b > 0 {
      Pow2Add(a, b - 1);
      assert Pow2(a + b) == 2 * Pow2(a + b - 1);
    }
  }

  lemma Pow2Values()
    ensures Pow2(5) == 32 && Pow2(8) == 256 && Pow2(32) == 0x1_0000_0000
  {
    Pow2Add(8, 8);
    Pow2Add(16, 16);
  }

  /** The value of `bits` read as a big-endian binary numeral. */
  function ToNat(bits: seq<bool>): (r: nat)
    ensures r < Pow2(|bits|)
  {
    if bits == [] then 0
    else 2 * ToNat(bits[..|bits| - 1]) + (if bits[|bits| - 1] then 1 else 0)
  }

  /** The low `width` bits of `x`, most significant first. */
  function FromNat(x: nat, width: nat): (bits: seq<bool>)
    ensures |bits| == width
  {
    if width == 0 then [] else FromNat(x / 2, width - 1) + [x % 2 == 1]
  }

  /** Reading back the low `width` bits of `x` gives `x` modulo 2^width. */
  lemma {:induction false} ToNatFromNat(x: nat, width: nat)
    ensures ToNat(FromNat(x, width)) == x % Pow2(width)
  {
    if width > 0 {
      var init := FromNat(x / 2, width - 1);
      var bits := FromNat(x, width);
      assert bits[..|bits| - 1] == init;
      ToNatFromNat(x / 2, width - 1);
      var m := Pow2(width - 1);
      var h := x / 2;
      var q, rem := h / m, h % m;
      var r := 2 * rem + x % 2;
      DivModParts(x, 2);
      DivModParts(h, m);
      Twice(q, m);
      assert ToNat(bits) == r;
      ModUnique(x, 2 * m, q, r);
    }
  }

  /** Writing out the value of a bit string in as many bits gives the bit string back. */
  lemma {:induction false} FromNatToNat(bits: seq<bool>)
    ensures FromNat(ToNat(bits), |bits|) == bits
  {
    if bits != [] {
      var init := bits[..|bits| - 1];
      var last := if bits[|bits| - 1] then 1 else 0;
      assert ToNat(bits) == 2 * ToNat(init) + last;
      assert ToNat(bits) / 2 == ToNat(init);
      assert ToNat(bits) % 2 == last;
      FromNatToNat(init);
      assert bits == init + [bits[|bits| - 1]];
    }
  }

  /** The value of a concatenation: the first part is shifted left past the second. */
  lemma {:induction false} ToNatAppend(a: seq<bool>, b: seq<bool>)
    ensures ToNat(a + b) == ToNat(a) * Pow2(|b|) + ToNat(b)
  {
    if b == [] {
      assert a + b == a;
    } else {
      var b' := b[..|b| - 1];
      assert (a + b)[..|a + b| - 1] == a + b';
      assert (a + b)[|a + b| - 1] == b[|b| - 1];
      ToNatAppend(a, b');
      var x, p := ToNat(a), Pow2(|b'|);
      assert Pow2(|b|) == 2 * p;
      assert ToNat(a + b) == 2 * (x * p + ToNat(b')) + (if b[|b| - 1] then 1 else 0);
      Twice(x, p);
    }
  }

  /** The consecutive 8-bit slices of `bits`, most significant bit first;
      a last slice shorter than eight bits is dropped. */
  function Pack(bits: seq<bool>): (bytes: seq<Byte>)
    ensures |bytes| == |bits| / 8
  {
    if |bits| < 8 then []
    else
      Pow2Values();
      [ToNat(bits[..8]) as Byte] + Pack(bits[8..])
  }

  /** Byte `j` of the packing is the value of bits [8j, 8j+8). */
  lemma {:induction false} PackAt(bits: seq<bool>, j: nat)
    requires j < |bits| / 8
    ensures Pack(bits)[j] == ToNat(bits[8 * j..8 * j + 8])
  {
    if j > 0 {
      PackAt(bits[8..], j - 1);
      SliceOfDrop(bits, 8, 8 * (j - 1), 8 * (j - 1) + 8);
    }
  }

  /** Packing works slice by slice: a prefix of whole bytes packs on its own. */
  lemma {:induction false} PackAppend(a: seq<bool>, b: seq<bool>)
    requires |a| % 8 == 0
    ensures Pack(a + b) == Pack(a) + Pack(b)
  {
    if a != [] {
      assert |a| >= 8;
      assert Pack(a) == [ToNat(a[..8]) as Byte] + Pack(a[8..]);
      assert Pack(a + b) == [ToNat((a + b)[..8]) as Byte] + Pack((a + b)[8..]);
      assert (a + b)[..8] == a[..8];
      assert (a + b)[8..] == a[8..] + b;
      PackAppend(a[8..], b);
    } else {
      assert a + b == b;
    }
  }

  /** Appending fewer than eight bits completes at most one more byte: the
      slice that starts at the first bit not yet packed. */
  lemma PackSnoc(bits: seq<bool>, g: seq<bool>)
    requires |bits| % 8 + |g| < 16
    ensures var k := |bits| / 8;
      Pack(bits + g) == Pack(bits) +
        (if |bits| % 8 + |g| >= 8 then [ToNat((bits + g)[8 * k..8 * k + 8]) as Byte] else [])
  {
    Pow2Values();
    var k := |bits| / 8;
    var whole, pending := bits[..8 * k], bits[8 * k..];
    Split2(bits, 8 * k);
    PackAppend(whole, pending);
    Assoc(whole, pending, g);
    PackAppend(whole, pending + g);
    var p := pending + g;
    if |p| >= 8 {
      assert Pack(p) == [ToNat(p[..8]) as Byte] + Pack(p[8..]);
      assert p[..8] == (bits + g)[8 * k..8 * k + 8];
    }
  }

  /** The bits of a byte sequence, eight per byte, most significant first. */
  function Unpack(bytes: seq<Byte>): (bits: seq<bool>)
    ensures |bits| == 8 * |bytes|
  {
    if bytes == [] then [] else FromNat(bytes[0], 8) + Unpack(bytes[1..])
  }

  /** Packing undoes unpacking. */
  lemma {:induction false} PackUnpack(bytes: seq<Byte>)
    ensures Pack(Unpack(bytes)) == bytes
  {
    if bytes != [] {
      var bits, head, tail := Unpack(bytes), FromNat(bytes[0], 8), Unpack(bytes[1..]);
      assert bits[..8] == head && bits[8..] == tail;
      ByteBits(bytes[0]);
      PackUnpack(bytes[1..]);
      assert Pack(bits) == [ToNat(head) as Byte] + Pack(tail);
    }
  }

  /** Packing ignores fewer than eight bits after unpacked bytes. */
  lemma PackUnpackTail(bytes: seq<Byte>, tail: seq<bool>)
    requires |tail| < 8
    ensures Pack(Unpack(bytes) + tail) == bytes
  {
    var bits := Unpack(bytes);
    WholeBytes(|bytes|, |bits|);
    PackAppend(bits, tail);
    PackUnpack(bytes);
    assert bytes + [] == bytes;
  }

  lemma WholeBytes(n: nat, k: nat)
    requires k == 8 * n
    ensures k % 8 == 0
  {
  }

  /** The value of a bit string followed by one byte's bits. */
  lemma AppendByte(u: seq<bool>, v: seq<bool>, hi: nat, lo: nat)
    requires |v| == 8 && ToNat(u) == hi && ToNat(v) == lo
    ensures ToNat(u + v) == hi * 256 + lo
  {
    ToNatAppend(u, v);
    Pow2Values();
  }

  /** Eight bits hold a byte exactly. */
  lemma ByteBits(b: Byte)
    ensures ToNat(FromNat(b, 8)) == b
  {
    ToNatFromNat(b, 8);
    Pow2Values();
    ModUnique(b, Pow2(8), 0, b);
  }

  /** In a 32-bit word holding the low 32 bits of a bit string's value, the
      byte at bit offset `b` (bits [b, b+8) counted from the least
      significant end) is the 8-bit slice that ends `b` bits before the end
      of the string. */
  lemma ByteOfWord(high: seq<bool>, top: seq<bool>, rest: seq<bool>, word: nat)
    requires |top| == 8 && |rest| + 8 <= 32
    requires word == ToNat(high + top + rest) % Pow2(32)
    ensures (word / Pow2(|rest|)) % 256 == ToNat(top)
  {
    var b := |rest|;
    ToNatAppend(high + top, rest);
    ToNatAppend(high, top);
    Pow2Values();
    Pow2Add(b, 8);
    var x, y := ToNat(high + top + rest), ToNat(high + top);
    ByteOfParts(x, y, ToNat(high), ToNat(top), ToNat(rest), Pow2(b));
    ByteOfValue(x, word, b, ToNat(top) * Pow2(b) + ToNat(rest), ToNat(top));
  }

  /** The parts of `x = y * p + r` with `y = h * 256 + t`, `t` a byte and
      `r < p`: below `256 * p` lies `t * p + r`, whose quotient by `p` is `t`. */
  lemma ByteOfParts(x: nat, y: nat, h: nat, t: nat, r: nat, p: nat)
    requires t < 256 && r < p && x == y * p + r && y == h * 256 + t
    ensures x % (p * 256) == t * p + r && (t * p + r) / p == t
  {
    MulMono(255, t, p);
    assert y * p == h * (p * 256) + t * p;
    assert x == h * (p * 256) + (t * p + r);
    ModUnique(x, p * 256, h, t * p + r);
    ModUnique(t * p + r, p, t, r);
  }

  /** A sequence is its two slices around a cut point. */
  lemma Split2<T>(s: seq<T>, i: nat)
    requires i <= |s|
    ensures s == s[..i] + s[i..]
  {
  }

  /** Concatenation is associative. */
  lemma Assoc<T>(a: seq<T>, b: seq<T>, c: seq<T>)
    ensures (a + b) + c == a + (b + c)
  {
  }

  /** A slice of a suffix is a slice of the whole, shifted. */
  lemma SliceOfDrop<T>(s: seq<T>, d: nat, i: nat, j: nat)
    requires d <= |s| && i <= j <= |s| - d
    ensures s[d..][i..j] == s[d + i..d + j]
  {
  }

  /** A sequence is its three slices around two cut points. */
  lemma Split3<T>(s: seq<T>, i: nat, j: nat)
    requires i <= j <= |s|
    ensures s == s[..i] + s[i..j] + s[j..]
  {
  }

  /** Bits [b, b+8) of `x`, counted from the least significant end, can be
      read from a word that keeps only the low 32 bits of `x`. */
  lemma ByteOfValue(x: nat, word: nat, b: nat, low: nat, top: nat)
    requires b + 8 <= 32 && word == x % Pow2(32)
    requires x % Pow2(b + 8) == low && low / Pow2(b) == top
    ensures (word / Pow2(b)) % 256 == top
  {
    Pow2Add(b, 8);
    Pow2Split(32, b + 8);
    Pow2Values();
    SliceOfWord(x, word, Pow2(b), Pow2(b + 8), Pow2(32 - (b + 8)), Pow2(32), low, top);
  }

  /** `Pow2(n)` as `Pow2(n - k) * Pow2(k)`. */
  lemma Pow2Split(n: nat, k: nat)
    requires k <= n
    ensures Pow2(n) == Pow2(n - k) * Pow2(k)
  {
    Pow2Add(n - k, k);
  }

  /** The byte above the low `a` part of a word that keeps `x` modulo
      `w`, a multiple of `256 * a`. */
  lemma SliceOfWord(x: nat, word: nat, a: nat, m: nat, c: nat, w: nat, low: nat, top: nat)
    requires a > 0 && c > 0 && m == a * 256 && w == c * m
    requires word == x % w && x % m == low && low / a == top
    ensures (word / a) % 256 == top
  {
    DivMod(word, a, 256);
    assert w == m * c;
    ModOfMod(x, m, c);
  }

  /** Adding a multiple of the modulus does not change a remainder. */
  lemma ModAddMultiple(y: nat, k: nat, m: nat)
    requires m > 0
    ensures (k * m + y) % m == y % m
  {
    DivModParts(y, m);
    assert k * m + y == (k + y / m) * m + y % m;
    ModUnique(k * m + y, m, k + y / m, y % m);
  }

  /** `x >> n` on a non-negative number: `n` halvings, each dropping the
      lowest bit. */
  function ShiftRight(x: nat, n: nat): (r: nat)
    ensures r <= x
  {
    if n == 0 then x else ShiftRight(x / 2, n - 1)
  }

  /** Shifting right by `n` bits divides by 2^n. */
  lemma {:induction false} ShiftRightDivides(x: nat, n: nat)
    ensures ShiftRight(x, n) == x / Pow2(n)
  {
    if n > 0 {
      ShiftRightDivides(x / 2, n - 1);
      DivDiv(x, 2, Pow2(n - 1));
    }
  }

  // Division and remainder facts used to reason about the decoder's shifts.

  lemma DivModParts(x: int, d: int)
    requires d > 0
    ensures x == (x / d) * d + x % d
  {
  }

  lemma Twice(x: int, p: int)
    ensures 2 * (x * p) == x * (2 * p)
  {
  }

  lemma MulAtLeast(k: int, d: int)
    requires k >= 1 && d > 0
    ensures k * d >= d
  {
    var j := k - 1;
    assert k * d == j * d + d;
    assert j * d >= 0;
  }

  lemma MulMono(x: int, y: int, a: int)
    requires x >= y >= 0 && a > 0
    ensures x * a >= y * a
  {
    assert x * a - y * a == (x - y) * a;
    if x > y {
      MulAtLeast(x - y, a);
    }
  }

  lemma ModUnique(x: int, d: int, q: int, r: int)
    requires d > 0 && 0 <= r < d && x == q * d + r
    ensures x / d == q && x % d == r
  {
    var q', r' := x / d, x % d;
    var k := q - q';
    assert k * d == r' - r by {
      assert x == q' * d + r';
      assert q * d - q' * d == k * d;
    }
    if k > 0 {
      MulAtLeast(k, d);
      assert false;
    } else if k < 0 {
      assert (-k) * d == -(k * d);
      MulAtLeast(-k, d);
      assert false;
    }
  }

  /** Taking a remainder modulo a multiple of `a` keeps the remainder modulo `a`. */
  lemma ModOfMod(x: nat, a: nat, b: nat)
    requires a > 0 && b > 0
    ensures (x % (a * b)) % a == x % a
  {
    var q := x / (a * b);
    var r := x % (a * b);
    assert x == q * (a * b) + r;
    assert x == (q * b + r / a) * a + r % a by {
      assert r == (r / a) * a + r % a;
      assert q * (a * b) == (q * b) * a;
    }
    ModUnique(x, a, q * b + r / a, r % a);
  }

  /** Bits [s, s+8) of `x` are the top byte of its low s+8 bits. */
  lemma DivMod(x: nat, a: nat, c: nat)
    requires a > 0 && c > 0
    ensures (x / a) % c == (x % (a * c)) / a
  {
    var q := x / (a * c);
    var r := x % (a * c);
    assert x == q * (a * c) + r;
    assert r < a * c;
    assert 0 <= r / a < c by {
      if r / a >= c {
        MulMono(r / a, c, a);
        assert false;
      }
    }
    assert x == (q * c + r / a) * a + r % a by {
      assert r == (r / a) * a + r % a;
      assert q * (a * c) == (q * c) * a;
    }
    ModUnique(x, a, q * c + r / a, r % a);
    assert x / a == q * c + r / a;
    ModUnique(x / a, c, q, r / a);
  }

  lemma DivDiv(x: nat, a: nat, b: nat)
    requires a > 0 && b > 0
    ensures x / a / b == x / (a * b)
  {
    var q, r := x / a, x % a;
    DivModParts(x, a);
    DivModParts(q, b);
    var q2, r2 := q / b, q % b;
    MulMono(b - 1, r2, a);
    Regroup(x, q, r, a, q2, r2, b);
    ModUnique(x, a * b, q2, r2 * a + r);
  }

  lemma Regroup(x: int, q: int, r: int, a: int, q2: int, r2: int, b: int)
    requires x == q * a + r && q == q2 * b + r2
    ensures x == q2 * (a * b) + (r2 * a + r)
  {
  }
}
