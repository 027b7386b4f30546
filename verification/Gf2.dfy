/**
 Long division of polynomials over GF(2) by x^16 + x^12 + x^5 + 1 (0x1021), one bit at a time.
 A remainder is a 16-bit word, its most significant bit the coefficient of x^15.
 */
module Gf2 {

  /** Addition of polynomials. */
  function Plus(a: bv16, b: bv16): bv16 {
    a ^ b
  }

  /** Multiplies a remainder by x: the bit that leaves the top is reduced by the divisor. */
  function TimesX(r: bv16): bv16 {
    if r & 0x8000 != 0 then (r << 1) ^ 0x1021 else r << 1
  }

  function TimesX2(r: bv16): bv16 {
    TimesX(TimesX(r))
  }

  function TimesX4(r: bv16): bv16 {
    TimesX2(TimesX2(r))
  }

  function TimesX8(r: bv16): bv16 {
    TimesX4(TimesX4(r))
  }

  function Bit(b: bool): bv16 {
    if b then 1 else 0
  }

  /** The remainder after bringing down the given bits, most significant first. */
  function Divide(r: bv16, bits: seq<bool>): bv16
    decreases |bits|
  {
    if bits == [] then r else Divide(Plus(TimesX(r), Bit(bits[0])), bits[1..])
  }

  function Zeros(n: nat): seq<bool> {
    seq(n, _ => false)
  }

  function XorBits(x: seq<bool>, y: seq<bool>): (z: seq<bool>)
    requires |x| == |y|
  {
    seq(|x|, i requires 0 <= i < |x| => x[i] != y[i])
  }

  // ---------------------------------------------------------------- division is linear

  lemma TopBit(a: bv16, b: bv16)
    ensures ((a ^ b) & 0x8000 != 0) == ((a & 0x8000 != 0) != (b & 0x8000 != 0))
  {
  }

  lemma ShiftXor(a: bv16, b: bv16, g: bv16)
    ensures (a ^ b) << 1 == (a << 1) ^ (b << 1)
    ensures ((a ^ b) << 1) ^ g == ((a << 1) ^ g) ^ (b << 1)
    ensures ((a ^ b) << 1) ^ g == (a << 1) ^ ((b << 1) ^ g)
    ensures (a ^ b) << 1 == ((a << 1) ^ g) ^ ((b << 1) ^ g)
  {
  }

  lemma TimesXCases(r: bv16)
    ensures r & 0x8000 != 0 ==> TimesX(r) == (r << 1) ^ 0x1021
    ensures r & 0x8000 == 0 ==> TimesX(r) == r << 1
  {
  }

  lemma TimesXLinear(a: bv16, b: bv16)
    ensures TimesX(Plus(a, b)) == Plus(TimesX(a), TimesX(b))
  {
    TopBit(a, b);
    ShiftXor(a, b, 0x1021);
    TimesXCases(a);
    TimesXCases(b);
    TimesXCases(a ^ b);
    if a & 0x8000 != 0 {
      if b & 0x8000 != 0 {
        assert TimesX(a ^ b) == (a ^ b) << 1;
      } else {
        assert TimesX(a ^ b) == ((a ^ b) << 1) ^ 0x1021;
      }
    } else {
      if b & 0x8000 != 0 {
        assert TimesX(a ^ b) == ((a ^ b) << 1) ^ 0x1021;
      } else {
        assert TimesX(a ^ b) == (a ^ b) << 1;
      }
    }
  }

  lemma TimesX2Linear(a: bv16, b: bv16)
    ensures TimesX2(Plus(a, b)) == Plus(TimesX2(a), TimesX2(b))
  {
    TimesXLinear(a, b);
    TimesXLinear(TimesX(a), TimesX(b));
  }

  lemma TimesX4Linear(a: bv16, b: bv16)
    ensures TimesX4(Plus(a, b)) == Plus(TimesX4(a), TimesX4(b))
  {
    TimesX2Linear(a, b);
    TimesX2Linear(TimesX2(a), TimesX2(b));
  }

  lemma TimesX8Linear(a: bv16, b: bv16)
    ensures TimesX8(Plus(a, b)) == Plus(TimesX8(a), TimesX8(b))
  {
    TimesX4Linear(a, b);
    TimesX4Linear(TimesX4(a), TimesX4(b));
  }

  lemma PlusAssociative(a: bv16, b: bv16, c: bv16)
    ensures Plus(Plus(a, b), c) == Plus(a, Plus(b, c))
  {
    assert (a ^ b) ^ c == a ^ (b ^ c);
  }

  lemma PlusCommutative(a: bv16, b: bv16)
    ensures Plus(a, b) == Plus(b, a)
  {
  }

  lemma Exchange(a: bv16, b: bv16, c: bv16, d: bv16)
    ensures Plus(Plus(a, b), Plus(c, d)) == Plus(Plus(a, c), Plus(b, d))
  {
    PlusAssociative(a, b, Plus(c, d));
    PlusAssociative(b, c, d);
    PlusCommutative(b, c);
    PlusAssociative(c, b, d);
    PlusAssociative(a, c, Plus(b, d));
  }

  lemma BitXor(p: bool, q: bool)
    ensures Bit(p != q) == Plus(Bit(p), Bit(q))
  {
  }

  lemma Divide1(r: bv16, bits: seq<bool>)
    requires bits != []
    ensures Divide(r, bits) == Divide(Plus(TimesX(r), Bit(bits[0])), bits[1..])
  {
  }

  lemma XorBitsParts(x: seq<bool>, y: seq<bool>)
    requires |x| == |y| && x != []
    ensures XorBits(x, y) != [] && XorBits(x, y)[0] == (x[0] != y[0])
    ensures XorBits(x, y)[1..] == XorBits(x[1..], y[1..])
  {
  }

  /** Dividing the sum of two messages gives the sum of the remainders. */
  lemma {:induction false} DivideLinear(a: bv16, x: seq<bool>, b: bv16, y: seq<bool>)
    requires |x| == |y|
    ensures Divide(Plus(a, b), XorBits(x, y)) == Plus(Divide(a, x), Divide(b, y))
    decreases |x|
  {
    if x != [] {
      hide Divide, XorBits, Plus, TimesX, Bit;
      Divide1(a, x);
      Divide1(b, y);
      XorBitsParts(x, y);
      Divide1(Plus(a, b), XorBits(x, y));
      TimesXLinear(a, b);
      BitXor(x[0], y[0]);
      Exchange(TimesX(a), TimesX(b), Bit(x[0]), Bit(y[0]));
      DivideLinear(Plus(TimesX(a), Bit(x[0])), x[1..], Plus(TimesX(b), Bit(y[0])), y[1..]);
    }
  }

  lemma {:induction false} DivideConcat(r: bv16, x: seq<bool>, y: seq<bool>)
    ensures Divide(r, x + y) == Divide(Divide(r, x), y)
    decreases |x|
  {
    if x == [] {
      assert x + y == y;
    } else {
      assert (x + y)[1..] == x[1..] + y;
      DivideConcat(Plus(TimesX(r), Bit(x[0])), x[1..], y);
    }
  }

  // ---------------------------------------------------------------- whole bytes

  function BitsOfByte(c: bv16): (s: seq<bool>)
    ensures |s| == 8
  {
    [c & 0x80 != 0, c & 0x40 != 0, c & 0x20 != 0, c & 0x10 != 0,
     c & 0x08 != 0, c & 0x04 != 0, c & 0x02 != 0, c & 0x01 != 0]
  }

  lemma DivideZeros8(r: bv16)
    ensures Divide(r, Zeros(8)) == TimesX8(r)
  {
    hide Divide, TimesX2, Zeros;
    DivideZeros2(r, 6);
    DivideZeros2(TimesX2(r), 4);
    DivideZeros2(TimesX4(r), 2);
    DivideZeros2(TimesX2(TimesX4(r)), 0);
    DivideNone(TimesX8(r));
  }

  lemma DivideNone(r: bv16)
    ensures Divide(r, Zeros(0)) == r
  {
  }

  lemma DivideZeros2(r: bv16, n: nat)
    ensures Divide(r, Zeros(n + 2)) == Divide(TimesX2(r), Zeros(n))
  {
    Divide1(r, Zeros(n + 2));
    assert Zeros(n + 2)[1..] == Zeros(n + 1) && Zeros(n + 1)[1..] == Zeros(n);
    XorZero(TimesX(r));
    XorZero(TimesX2(r));
  }

  lemma XorZero(r: bv16)
    ensures Plus(r, 0) == r
  {
  }

  lemma ShiftLow(c: bv16)
    requires c < 0x100
    ensures TimesX8(c) == c << 8
  {
  }

  /** Bringing down the next bit of a byte, while nothing has to be reduced. */
  lemma NextBit(c: bv16)
    requires c < 0x100
    ensures Plus(TimesX(0), Bit(c & 0x80 != 0)) == c >> 7
    ensures Plus(TimesX(c >> 7), Bit(c & 0x40 != 0)) == c >> 6
    ensures Plus(TimesX(c >> 6), Bit(c & 0x20 != 0)) == c >> 5
    ensures Plus(TimesX(c >> 5), Bit(c & 0x10 != 0)) == c >> 4
    ensures Plus(TimesX(c >> 4), Bit(c & 0x08 != 0)) == c >> 3
    ensures Plus(TimesX(c >> 3), Bit(c & 0x04 != 0)) == c >> 2
    ensures Plus(TimesX(c >> 2), Bit(c & 0x02 != 0)) == c >> 1
    ensures Plus(TimesX(c >> 1), Bit(c & 0x01 != 0)) == c
  {
  }

  lemma DivideByteFromZero(c: bv16)
    requires c < 0x100
    ensures Divide(0, BitsOfByte(c)) == c
  {
    NextBit(c);
    var s := BitsOfByte(c);
    Divide1(0, s);
    Divide1(c >> 7, s[1..]);
    Divide1(c >> 6, s[2..]);
    Divide1(c >> 5, s[3..]);
    Divide1(c >> 4, s[4..]);
    Divide1(c >> 3, s[5..]);
    Divide1(c >> 2, s[6..]);
    Divide1(c >> 1, s[7..]);
    assert s[1..][1..] == s[2..] && s[2..][1..] == s[3..] && s[3..][1..] == s[4..];
    assert s[4..][1..] == s[5..] && s[5..][1..] == s[6..] && s[6..][1..] == s[7..];
  }

  lemma ZerosNeutral(s: seq<bool>)
    ensures XorBits(Zeros(|s|), s) == s
  {
  }

  /** Bringing down a byte multiplies the remainder by x^8 and adds the byte. */
  lemma DivideByte(r: bv16, c: bv16)
    requires c < 0x100
    ensures Divide(r, BitsOfByte(c)) == Plus(TimesX8(r), c)
  {
    var s := BitsOfByte(c);
    DivideLinear(r, Zeros(8), 0, s);
    ZerosNeutral(s);
    XorZero(r);
    DivideZeros8(r);
    DivideByteFromZero(c);
  }
}
