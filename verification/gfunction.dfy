/**
  The g-function of the Rabbit next-state function (RFC 4503, section 2.6)
  in the three forms the implementation touches: the defining form (square
  in full precision, fold the two 32-bit halves together with XOR), the
  inline 64-bit form of `nextState`, and the alternate all-32-bit form
  `gfunc`, which the implementation defines but never calls.
 */
module GFunction {
  import opened Words

  /** g(u) = LSW(u^2) XOR MSW(u^2), the square taken without any truncation. */
  function SquareFold(u: Word): Word
  {
    SquareBound(u);
    Xor32(u * u % 0x1_0000_0000, u * u / 0x1_0000_0000)
  }

  /** One lane of the g loop of `nextState`: the sum of a state word and a
      counter word, masked to 32 bits, squared in a uint64, with the low and
      high words of the product XORed. */
  function G(x: Word, c: Word): (g: Word)
    ensures g == SquareFold((x + c) % 0x1_0000_0000)
  {
    var t := (x + c) % 0x1_0000_0000;
    SquareBound(t);
    FitsIn64(t * t);
    var square := t * t % 0x1_0000_0000_0000_0000;
    Xor32(square % 0x1_0000_0000, square / 0x1_0000_0000 % 0x1_0000_0000)
  }

  /** A value below 2^64 survives a uint64 and its `>> 32` is below 2^32. */
  lemma FitsIn64(s: int)
    requires 0 <= s < 0x1_0000_0000_0000_0000
    ensures s % 0x1_0000_0000_0000_0000 == s && s / 0x1_0000_0000 % 0x1_0000_0000 == s / 0x1_0000_0000
  {
  }

  /** `gfunc`: the same value computed with uint32 arithmetic only. The high
      word of the square is assembled from the 16-bit halves a and b of x,
      and the low word is the wrapping uint32 product `x * x`. */
  function GFunc(x: Word): (r: Word)
    ensures r == SquareFold(x)
  {
    var a := x % 0x1_0000;
    var b := x / 0x1_0000;
    var h := Add32(Add32(Mul32(a, a) / 0x2_0000, Mul32(a, b)) / 0x8000, Mul32(b, b));
    var l := Mul32(x, x);
    HighWordOfSquare(x);
    Xor32Commutes(h, l);
    Xor32(h, l)
  }

  /** The uint32 expression `gfunc` uses for the high word never wraps: none
      of its three products and neither of its two sums exceeds 32 bits. It
      equals the high 32 bits of the full square. */
  lemma HighWordOfSquare(x: Word)
    ensures
      var a, b := x % 0x1_0000, x / 0x1_0000;
      && Mul32(a, a) == a * a && Mul32(a, b) == a * b && Mul32(b, b) == b * b
      && a * a / 0x2_0000 + a * b < 0x1_0000_0000
      && (a * a / 0x2_0000 + a * b) / 0x8000 + b * b < 0x1_0000_0000
    ensures
      var a, b := x % 0x1_0000, x / 0x1_0000;
      Add32(Add32(Mul32(a, a) / 0x2_0000, Mul32(a, b)) / 0x8000, Mul32(b, b)) == x * x / 0x1_0000_0000
  {
    var a, b := x % 0x1_0000, x / 0x1_0000;
    MulHalfBound(a, a);
    MulHalfBound(a, b);
    MulHalfBound(b, b);
    assert Mul32(a, a) == a * a && Mul32(a, b) == a * b && Mul32(b, b) == b * b;
    assert Add32(a * a / 0x2_0000, a * b) == a * a / 0x2_0000 + a * b;
    SquareHighWord(x);
    SquareBound(x);
  }

  /** Schoolbook squaring on halves: with x = b * 2^16 + a,
      floor(x^2 / 2^32) = b^2 + floor((floor(a^2 / 2^17) + a * b) / 2^15). */
  lemma SquareHighWord(x: Word)
    ensures
      var a, b := x % 0x1_0000, x / 0x1_0000;
      (a * a / 0x2_0000 + a * b) / 0x8000 + b * b == x * x / 0x1_0000_0000
  {
    var a, b := x % 0x1_0000, x / 0x1_0000;
    assert x == b * 0x1_0000 + a;
    var m := a * a + a * b * 0x2_0000;
    assert x * x == b * b * 0x1_0000_0000 + m;
    assert a * a / 0x2_0000 + a * b == m / 0x2_0000;
    assert m / 0x2_0000 / 0x8000 == m / 0x1_0000_0000;
  }

  /** `gfunc` computes exactly the value the inline loop of `nextState`
      produces, for every state word and counter word. */
  lemma GFuncAgreesWithInline(x: Word, c: Word)
    ensures GFunc((x + c) % 0x1_0000_0000) == G(x, c)
  {
  }
}
