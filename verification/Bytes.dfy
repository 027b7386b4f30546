/** Byte strings, the Option type and the decimal notation that the client writes and reads. */
module Bytes {

  type byte = bv8

  type bytes = seq<byte>

  datatype Option<+T> = None | Some(value: T)

  const CR: byte := 13
  const LF: byte := 10
  const MINUS: byte := 45
  const CRLF: bytes := [13, 10]

  /** The range of C's `long` and `int` on the platforms the client supports. */
  const LONG_MAX: int := 0x7FFF_FFFF_FFFF_FFFF
  const LONG_MIN: int := -0x8000_0000_0000_0000
  const INT_MAX: int := 0x7FFF_FFFF

  const DIGITS: bytes := [48, 49, 50, 51, 52, 53, 54, 55, 56, 57]

  predicate IsDigit(b: byte) {
    b == 48 || b == 49 || b == 50 || b == 51 || b == 52
    || b == 53 || b == 54 || b == 55 || b == 56 || b == 57
  }

  predicate IsSpace(b: byte) {
    b == 32 || b == 9 || b == 10 || b == 11 || b == 12 || b == 13
  }

  function DigitValue(b: byte): nat {
    if b == 49 then 1 else if b == 50 then 2 else if b == 51 then 3
    else if b == 52 then 4 else if b == 53 then 5 else if b == 54 then 6
    else if b == 55 then 7 else if b == 56 then 8 else if b == 57 then 9 else 0
  }

  /** What `%d` and `smart_string_append_long` print. */
  function Decimal(n: nat): (s: bytes)
    ensures |s| > 0
  {
    if n < 10 then [DIGITS[n]] else Decimal(n / 10) + [DIGITS[n % 10]]
  }

  function DecimalInt(i: int): bytes {
    if i < 0 then [MINUS] + Decimal(-i) else Decimal(i)
  }

  function DigitRun(s: bytes): (k: nat)
    ensures k <= |s|
  {
    if s != [] && IsDigit(s[0]) then 1 + DigitRun(s[1..]) else 0
  }

  function DigitsValue(s: bytes): nat {
    if s == [] then 0 else 10 * DigitsValue(s[..|s| - 1]) + DigitValue(s[|s| - 1])
  }

  function SkipSpace(s: bytes): bytes {
    if s != [] && IsSpace(s[0]) then SkipSpace(s[1..]) else s
  }

  function Clamp(i: int): int {
    if i < LONG_MIN then LONG_MIN else if i > LONG_MAX then LONG_MAX else i
  }

  /** The number spelled by the longest run of digits at the front, zero if there is none. */
  function Digits(s: bytes): nat {
    DigitsValue(s[..DigitRun(s)])
  }

  /** C's `atol`: leading white space, an optional sign, then the longest run of digits;
      anything after that is ignored and an empty run reads as zero. */
  function Atol(s: bytes): int {
    var t := SkipSpace(s);
    if t != [] && t[0] == MINUS then Clamp(0 - Digits(t[1..]))
    else if t != [] && t[0] == 43 then Clamp(Digits(t[1..]))
    else Clamp(Digits(t))
  }

  ghost predicate AllDigits(s: bytes) {
    forall i :: 0 <= i < |s| ==> IsDigit(s[i])
  }

  lemma {:induction false} DecimalDigits(n: nat)
    ensures AllDigits(Decimal(n))
    ensures DigitsValue(Decimal(n)) == n
  {
    assert forall d :: 0 <= d < 10 ==> IsDigit(DIGITS[d]) && DigitValue(DIGITS[d]) == d;
    if n >= 10 {
      DecimalDigits(n / 10);
      var s := Decimal(n);
      assert s[..|s| - 1] == Decimal(n / 10);
    } else {
      var s := Decimal(n);
      assert s[..|s| - 1] == [];
    }
  }

  lemma {:induction false} DigitRunStops(s: bytes, tail: bytes)
    requires AllDigits(s)
    requires tail == [] || !IsDigit(tail[0])
    ensures DigitRun(s + tail) == |s|
  {
    if s == [] {
      assert s + tail == tail;
    } else {
      assert (s + tail)[1..] == s[1..] + tail;
      DigitRunStops(s[1..], tail);
    }
  }

  lemma DigitsInverse(n: nat, tail: bytes)
    requires tail == [] || !IsDigit(tail[0])
    ensures Digits(Decimal(n) + tail) == n
    ensures IsDigit(Decimal(n)[0])
  {
    var d := Decimal(n);
    DecimalDigits(n);
    DigitRunStops(d, tail);
    assert (d + tail)[..|d|] == d;
  }

  lemma AtolNatural(n: nat, tail: bytes)
    requires n <= LONG_MAX
    requires tail == [] || !IsDigit(tail[0])
    ensures Atol(Decimal(n) + tail) == n
  {
    DigitsInverse(n, tail);
    var t := Decimal(n) + tail;
    assert IsDigit(t[0]);
    assert SkipSpace(t) == t;
  }

  lemma AtolMinus(t: bytes)
    ensures Atol([MINUS] + t) == Clamp(0 - Digits(t))
  {
    assert ([MINUS] + t)[1..] == t;
  }

  lemma AtolNegative(n: nat, tail: bytes)
    requires LONG_MIN <= 0 - n
    requires tail == [] || !IsDigit(tail[0])
    ensures Atol([MINUS] + (Decimal(n) + tail)) == 0 - n
  {
    DigitsInverse(n, tail);
    AtolMinus(Decimal(n) + tail);
  }

  /** Reading back a printed number gives the number, whatever non-digit follows it. */
  lemma AtolInverse(i: int, tail: bytes)
    requires LONG_MIN <= i <= LONG_MAX
    requires tail == [] || !IsDigit(tail[0])
    ensures Atol(DecimalInt(i) + tail) == i
  {
    if i < 0 {
      AtolNegative(-i, tail);
      assert DecimalInt(i) + tail == [MINUS] + (Decimal(-i) + tail);
    } else {
      AtolNatural(i, tail);
    }
  }

  /** The position of the first `b`, the length of `s` if there is none. */
  function IndexOf(s: bytes, b: byte): (k: nat)
    ensures k <= |s| && b !in s[..k]
    ensures k < |s| ==> s[k] == b
  {
    if s == [] || s[0] == b then 0
    else
      var k := 1 + IndexOf(s[1..], b);
      assert s[..k] == [s[0]] + s[1..][..k - 1];
      k
  }

  lemma IndexOfUnique(s: bytes, b: byte, k: nat)
    requires k <= |s| && b !in s[..k]
    requires k < |s| ==> s[k] == b
    ensures IndexOf(s, b) == k
  {
  }
}
