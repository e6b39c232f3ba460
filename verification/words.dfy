/**
  Fixed-width unsigned machine words, modelled as bounded integers.

  Go's uint8, uint16, uint32 and uint64 wrap modulo 2^8, 2^16, 2^32 and 2^64;
  here every such value is an `int` in its range and every wrap-around is an
  explicit `%`. Shifts by a constant are divisions or multiplications by a
  power of two, `& 0xFFFF` is `% 0x1_0000`, and `(hi << 16) | lo` on halves
  whose bits do not overlap is `hi * 0x1_0000 + lo`. Bitwise XOR is defined
  one binary digit at a time.
 */
module Words {

  /** Go `byte` / `uint8`. */
  type Byte = n: int | 0 <= n < 0x100
  /** Go `uint16`. */
  type Half = n: int | 0 <= n < 0x1_0000
  /** Go `uint32`. */
  type Word = n: int | 0 <= n < 0x1_0000_0000

  /** uint32 addition, wrapping modulo 2^32. */
  function Add32(p: Word, q: Word): (r: Word)
    ensures p + q < 0x1_0000_0000 ==> r == p + q
    ensures p + q >= 0x1_0000_0000 ==> r == p + q - 0x1_0000_0000
  {
    (p + q) % 0x1_0000_0000
  }

  /** uint32 multiplication, wrapping modulo 2^32: the product itself when
      it fits, and in every case the word congruent to the product. */
  function Mul32(p: Word, q: Word): (r: Word)
    ensures p * q < 0x1_0000_0000 ==> r == p * q
    ensures (p * q - r) % 0x1_0000_0000 == 0
  {
    (p * q) % 0x1_0000_0000
  }

  /* ---------------------------------------------------------------------
     Bitwise XOR, defined one binary digit at a time from the least
     significant end: the low digit of `a ^ b` is the parity of the low
     digits of a and b, and the rest is the XOR of `a >> 1` and `b >> 1`.
     --------------------------------------------------------------------- */

  /** 2^n. */
  function Pow2(n: nat): (p: nat)
    ensures p >= 1
  {
    if n == 0 then 1 else 2 * Pow2(n - 1)
  }

  /** Bit `i` of `v`, as 0 or 1 (`(v >> i) & 1`). */
  function Bit(v: nat, i: nat): (r: nat)
    ensures r <= 1
  {
    if i == 0 then v % 2 else Bit(v / 2, i - 1)
  }

  /** The XOR of the low `n` bits of `a` and `b`. */
  function Xor(a: nat, b: nat, n: nat): (r: nat)
    ensures r < Pow2(n)
  {
    if n == 0 then 0 else (a + b) % 2 + 2 * Xor(a / 2, b / 2, n - 1)
  }

  /** Go `^` on uint16: each of the 16 bits is set exactly when the
      operands' bits differ. */
  function Xor16(a: Half, b: Half): (r: Half)
    ensures forall i :: 0 <= i < 16 ==> Bit(r, i) == (if Bit(a, i) == Bit(b, i) then 0 else 1)
  {
    Pow2Widths();
    XorBits(a, b, 16);
    Xor(a, b, 16)
  }

  /** Go `^` on uint32: each of the 32 bits is set exactly when the
      operands' bits differ. */
  function Xor32(a: Word, b: Word): (r: Word)
    ensures forall i :: 0 <= i < 32 ==> Bit(r, i) == (if Bit(a, i) == Bit(b, i) then 0 else 1)
  {
    Pow2Widths();
    XorBits(a, b, 32);
    Xor(a, b, 32)
  }

  /** `XorBit` for every bit below the width at once. */
  lemma XorBits(a: nat, b: nat, n: nat)
    ensures forall i :: 0 <= i < n ==> Bit(Xor(a, b, n), i) == (if Bit(a, i) == Bit(b, i) then 0 else 1)
  {
    forall i | 0 <= i < n {
      XorBit(a, b, n, i);
    }
  }

  lemma {:induction false} Pow2Add(m: nat, n: nat)
    ensures Pow2(m + n) == Pow2(m) * Pow2(n)
  {
    if m > 0 {
      Pow2Add(m - 1, n);
    }
  }

  /** The two powers the word widths need. */
  lemma Pow2Widths()
    ensures Pow2(16) == 0x1_0000 && Pow2(32) == 0x1_0000_0000
  {
    assert Pow2(4) == 16;
    Pow2Add(4, 4);
    Pow2Add(8, 8);
    Pow2Add(16, 16);
  }

  /** Bit `i` of the XOR is set exactly when bits `i` of the operands
      differ, for every bit position below the width. */
  lemma {:induction false} XorBit(a: nat, b: nat, n: nat, i: nat)
    requires i < n
    ensures Bit(Xor(a, b, n), i) == (if Bit(a, i) == Bit(b, i) then 0 else 1)
  {
    var r := Xor(a, b, n);
    assert r == (a + b) % 2 + 2 * Xor(a / 2, b / 2, n - 1);
    if i == 0 {
      ParityOfSum(a, b);
    } else {
      assert r / 2 == Xor(a / 2, b / 2, n - 1);
      XorBit(a / 2, b / 2, n - 1, i - 1);
    }
  }

  /** Bits at or above the width are clear in the XOR. */
  lemma {:induction false} XorHighBits(a: nat, b: nat, n: nat, i: nat)
    requires n <= i
    ensures Bit(Xor(a, b, n), i) == 0
  {
    if n == 0 {
      BitOfZero(i);
    } else {
      var r := Xor(a, b, n);
      assert r / 2 == Xor(a / 2, b / 2, n - 1);
      XorHighBits(a / 2, b / 2, n - 1, i - 1);
    }
  }

  lemma {:induction false} BitOfZero(i: nat)
    ensures Bit(0, i) == 0
  {
    if i > 0 {
      BitOfZero(i - 1);
    }
  }

  lemma ParityOfSum(p: int, q: int)
    ensures (p + q) % 2 == (if p % 2 == q % 2 then 0 else 1)
  {
  }

  lemma {:induction false} XorCommutes(a: nat, b: nat, n: nat)
    ensures Xor(a, b, n) == Xor(b, a, n)
  {
    if n > 0 {
      XorCommutes(a / 2, b / 2, n - 1);
    }
  }

  /** XOR with the same b twice gives back the low n bits of a. */
  lemma {:induction false} XorTwice(a: nat, b: nat, n: nat)
    ensures Xor(Xor(a, b, n), b, n) == a % Pow2(n)
  {
    if n > 0 {
      var x, rest := Xor(a, b, n), Xor(a / 2, b / 2, n - 1);
      assert x == (a + b) % 2 + 2 * rest;
      assert x / 2 == rest && x % 2 == (a + b) % 2;
      assert (x + b) % 2 == a % 2 by {
        ParityOfSum(a, b);
        ParityOfSum(x, b);
      }
      assert Xor(x, b, n) == (x + b) % 2 + 2 * Xor(rest, b / 2, n - 1);
      XorTwice(a / 2, b / 2, n - 1);
      LowBitsStep(a, 2, Pow2(n - 1));
      assert Pow2(n) == 2 * Pow2(n - 1);
    }
  }

  /** The remainder of a modulo d p is its last base-d digit plus d times
      the remainder of a / d modulo p. */
  lemma LowBitsStep(a: nat, d: nat, p: nat)
    requires d >= 1 && p >= 1
    ensures a % (d * p) == a % d + d * (a / d % p)
  {
    var q, r := a / d / p, a / d % p;
    assert a / d == p * q + r;
    assert a == d * (a / d) + a % d;
    assert a == (d * p) * q + (d * r + a % d);
    assert d * r + a % d < d * p by {
      MulMono(d, r, p - 1);
    }
    DivModUnique(a, d * p, q, d * r + a % d);
  }

  /** Go's `x ^ m ^ m == x` on uint32. */
  lemma Xor32Twice(a: Word, b: Word)
    ensures Xor32(Xor32(a, b), b) == a
  {
    var x := Xor(a, b, 32);
    assert Xor32(a, b) == x;
    assert Xor32(x, b) == Xor(x, b, 32);
    XorTwice(a, b, 32);
    Pow2Widths();
    assert a % Pow2(32) == a;
  }

  lemma Xor16Commutes(a: Half, b: Half)
    ensures Xor16(a, b) == Xor16(b, a)
  {
    XorCommutes(a, b, 16);
  }

  lemma Xor32Commutes(a: Word, b: Word)
    ensures Xor32(a, b) == Xor32(b, a)
  {
    XorCommutes(a, b, 32);
  }

  /* ---------------------------------------------------------------------
     Halves of words and bytes of halves.
     --------------------------------------------------------------------- */

  /** `w & 0xFFFF`: the half that differs from w by a multiple of 2^16. */
  function Low16(w: Word): (l: Half)
    ensures (w - l) % 0x1_0000 == 0
  {
    w % 0x1_0000
  }

  /** `w >> 16`: the number of whole 2^16 steps in w. */
  function High16(w: Word): (h: Half)
    ensures h * 0x1_0000 <= w < h * 0x1_0000 + 0x1_0000
  {
    w / 0x1_0000
  }

  /** `(uint32(hi) << 16) | uint32(lo)`. */
  function Join(hi: Half, lo: Half): (w: Word)
    ensures High16(w) == hi && Low16(w) == lo
  {
    hi * 0x1_0000 + lo
  }

  lemma JoinSplit(w: Word)
    ensures Join(High16(w), Low16(w)) == w
  {
  }

  /** `byte(h & 0xFF)`: the byte that differs from h by a multiple of 2^8. */
  function LowByte(h: Half): (l: Byte)
    ensures (h - l) % 0x100 == 0
  {
    h % 0x100
  }

  /** `byte(h >> 8)`: the number of whole 2^8 steps in h. */
  function HighByte(h: Half): (b: Byte)
    ensures b * 0x100 <= h < b * 0x100 + 0x100
  {
    h / 0x100
  }

  /** `(uint16(hi) << 8) | uint16(lo)`: two bytes read little-endian. */
  function LittleEndian16(lo: Byte, hi: Byte): (h: Half)
    ensures LowByte(h) == lo && HighByte(h) == hi
  {
    hi * 0x100 + lo
  }

  lemma LittleEndian16OfBytes(h: Half)
    ensures LittleEndian16(LowByte(h), HighByte(h)) == h
  {
  }

  /* ---------------------------------------------------------------------
     Rotations (`bits.RotateLeft32` with the two amounts the cipher uses).
     --------------------------------------------------------------------- */

  /** `bits.RotateLeft32(w, 8)` = `(w << 8) | (w >> 24)`. */
  function RotateLeft8(w: Word): (r: Word)
    ensures r / 0x100 == w % 0x100_0000 && r % 0x100 == w / 0x100_0000
  {
    (w % 0x100_0000) * 0x100 + w / 0x100_0000
  }

  /** `bits.RotateLeft32(w, 16)` = `(w << 16) | (w >> 16)`: the halves swap. */
  function RotateLeft16(w: Word): (r: Word)
    ensures High16(r) == Low16(w) && Low16(r) == High16(w)
  {
    (w % 0x1_0000) * 0x1_0000 + w / 0x1_0000
  }

  /** Two rotations by 8 are one rotation by 16. */
  lemma RotateLeft8Twice(w: Word)
    ensures RotateLeft8(RotateLeft8(w)) == RotateLeft16(w)
  {
    var b0, b1, b2, b3 := WordBytes(w);
    RotateLeft8OfBytes(b0, b1, b2, b3);
    RotateLeft8OfBytes(b3, b0, b1, b2);
    var high: int, low: int := b3 as int * 0x100 + b2, b1 as int * 0x100 + b0;
    DivModUnique(w, 0x1_0000, high, low);
  }

  /** The four bytes of a word, least significant first. */
  lemma WordBytes(w: Word) returns (b0: Byte, b1: Byte, b2: Byte, b3: Byte)
    ensures w == b3 * 0x100_0000 + b2 * 0x1_0000 + b1 * 0x100 + b0
  {
    var w1, w2;
    b0, w1 := w % 0x100, w / 0x100;
    b1, w2 := w1 % 0x100, w1 / 0x100;
    b2, b3 := w2 % 0x100, w2 / 0x100;
  }

  /** Rotating left by 8 moves the top byte to the bottom. */
  lemma RotateLeft8OfBytes(b0: Byte, b1: Byte, b2: Byte, b3: Byte)
    ensures RotateLeft8(b3 * 0x100_0000 + b2 * 0x1_0000 + b1 * 0x100 + b0)
         == b2 * 0x100_0000 + b1 * 0x1_0000 + b0 * 0x100 + b3
  {
    DivModUnique(b3 * 0x100_0000 + b2 * 0x1_0000 + b1 * 0x100 + b0, 0x100_0000, b3, b2 * 0x1_0000 + b1 * 0x100 + b0);
  }

  /** A rotation by 16 undoes itself. */
  lemma RotateLeft16Twice(w: Word)
    ensures RotateLeft16(RotateLeft16(w)) == w
  {
  }

  /* ---------------------------------------------------------------------
     Little-endian value of a byte string.
     --------------------------------------------------------------------- */

  /** The number whose base-256 digits, least significant first, are `s`. */
  function LittleEndianValue(s: seq<Byte>): nat
  {
    if |s| == 0 then 0 else s[0] + 0x100 * LittleEndianValue(s[1..])
  }

  /** The number whose base-2^16 digits, least significant first, are `h`. */
  function HalvesValue(h: seq<Half>): nat
  {
    if |h| == 0 then 0 else h[0] + 0x1_0000 * HalvesValue(h[1..])
  }

  /** The first n 16-bit slices of v, lowest first. */
  function Slices16(v: nat, n: nat): seq<Half>
  {
    seq(n, i requires 0 <= i < n => Slice16(v, i))
  }

  /** Slicing loses nothing below the top slice: the first n slices of v,
      put back together, are v modulo 2^(16 n). */
  lemma {:induction false} SlicesRecombine(v: nat, n: nat)
    ensures HalvesValue(Slices16(v, n)) == v % Pow2(16 * n)
  {
    if n > 0 {
      var s, rest := Slices16(v, n), Slices16(v / 0x1_0000, n - 1);
      assert s[1..] == rest by {
        forall i | 0 <= i < n - 1
          ensures s[1..][i] == rest[i]
        {
          assert Slice16(v, i + 1) == Slice16(v / 0x1_0000, i);
        }
      }
      SlicesRecombine(v / 0x1_0000, n - 1);
      Pow2Step16(n);
      LowBitsStep(v, 0x1_0000, Pow2(16 * (n - 1)));
    }
  }

  /** 2^(16 n) is 2^16 times 2^(16 (n - 1)). */
  lemma Pow2Step16(n: nat)
    requires n > 0
    ensures Pow2(16 * n) == 0x1_0000 * Pow2(16 * (n - 1))
  {
    var p := Pow2(16 * (n - 1));
    assert 16 * n == 16 + 16 * (n - 1);
    Pow2Add(16, 16 * (n - 1));
    Pow2Widths();
  }

  /** Bits 16 i + 15 .. 16 i of `v`: its i-th 16-bit slice from the least
      significant end, found by dropping the low 16 bits i times. */
  function Slice16(v: nat, i: nat): Half
  {
    if i == 0 then v % 0x1_0000 else Slice16(v / 0x1_0000, i - 1)
  }

  /** The i-th 16-bit slice of a little-endian byte string is the pair of
      bytes 2 i and 2 i + 1, low byte first. */
  lemma {:induction false} LittleEndianSlice16(s: seq<Byte>, i: nat)
    requires 2 * i + 2 <= |s|
    ensures Slice16(LittleEndianValue(s), i) == LittleEndian16(s[2 * i], s[2 * i + 1])
  {
    DropTwoBytes(s);
    if i > 0 {
      LittleEndianSlice16(s[2..], i - 1);
      assert s[2..][2 * (i - 1)] == s[2 * i] && s[2..][2 * (i - 1) + 1] == s[2 * i + 1];
    }
  }

  /** Dropping the low 16 bits of a little-endian value drops its first two
      bytes; the low 16 bits are those two bytes. */
  lemma DropTwoBytes(s: seq<Byte>)
    requires |s| >= 2
    ensures LittleEndianValue(s) / 0x1_0000 == LittleEndianValue(s[2..])
    ensures LittleEndianValue(s) % 0x1_0000 == LittleEndian16(s[0], s[1])
  {
    assert s[1..][1..] == s[2..];
    var top := LittleEndianValue(s[2..]);
    assert LittleEndianValue(s) == s[0] + 0x100 * (s[1] + 0x100 * top);
    DivModUnique(LittleEndianValue(s), 0x1_0000, top, LittleEndian16(s[0], s[1]));
  }

  /* ---------------------------------------------------------------------
     Non-linear arithmetic helpers.
     --------------------------------------------------------------------- */

  /** Quotient and remainder are determined by `n == q * d + r`, `0 <= r < d`. */
  lemma DivModUnique(n: int, d: int, q: int, r: int)
    requires d > 0 && 0 <= r < d && n == q * d + r
    ensures n / d == q && n % d == r
  {
    var q', r' := n / d, n % d;
    assert (q - q') * d == r' - r;
    if q > q' {
      MulMono(d, 1, q - q');
    } else if q < q' {
      MulMono(d, 1, q' - q);
    }
  }

  lemma MulMono(x: nat, y: nat, z: nat)
    requires y <= z
    ensures x * y <= x * z
  {
    assert x * z == x * y + x * (z - y);
  }

  /** The product of two halves fits in a word. */
  lemma MulHalfBound(p: Half, q: Half)
    ensures p * q <= 0xFFFE_0001
  {
    MulMono(p, q, 0xFFFF);
    MulMono(0xFFFF, p, 0xFFFF);
  }

  /** The square of a word fits in 64 bits. */
  lemma SquareBound(u: Word)
    ensures u * u < 0x1_0000_0000_0000_0000
  {
    MulMono(u, u, 0x1_0000_0000 - 1);
    MulMono(0x1_0000_0000 - 1, u, 0x1_0000_0000 - 1);
  }
}
