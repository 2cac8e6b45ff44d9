/** Bytes as numbers, their bitwise exclusive or, and the numbers that byte strings spell. */
module Octets {
  import Common

  /** A byte as a number, so that lengths and flag bits are plain arithmetic. */
  type Octet = n: int | 0 <= n < 256

  /** Exclusive or of the low n bits, bit by bit. */
  function XorBits(a: nat, b: nat, n: nat): (r: nat)
    decreases n
  {
    if n == 0 then 0 else (a + b) % 2 + 2 * XorBits(a / 2, b / 2, n - 1)
  }

  function Pow2(n: nat): (p: nat)
    ensures p > 0
  {
    if n == 0 then 1 else 2 * Pow2(n - 1)
  }

  lemma {:induction false} XorBitsSmall(a: nat, b: nat, n: nat)
    ensures XorBits(a, b, n) < Pow2(n)
    decreases n
  {
    if n == 0 {
    } else {
      XorBitsSmall(a / 2, b / 2, n - 1);
    }
  }

  /** Applying the same key twice gives the bits back. */
  lemma {:induction false} XorBitsTwice(a: nat, b: nat, n: nat)
    requires a < Pow2(n)
    ensures XorBits(XorBits(a, b, n), b, n) == a
    decreases n
  {
    if n == 0 {
    } else {
      XorBitsTwice(a / 2, b / 2, n - 1);
      LowBit(a, b, XorBits(a / 2, b / 2, n - 1));
    }
  }

  lemma LowBit(a: nat, b: nat, x: nat)
    ensures var r := (a + b) % 2 + 2 * x; r / 2 == x && (r + b) % 2 == a % 2
    ensures a == a % 2 + 2 * (a / 2)
  {
    var p := (a + b) % 2;
    assert (p + 2 * x + b) % 2 == (p + b) % 2;
  }

  lemma {:induction false} XorBitsZero(a: nat, n: nat)
    requires a < Pow2(n)
    ensures XorBits(a, 0, n) == a
    decreases n
  {
    if n == 0 {
    } else {
      XorBitsZero(a / 2, n - 1);
    }
  }

  lemma ByteWidth()
    ensures Pow2(8) == 256
  {
    assert Pow2(4) == 16;
  }

  /** Exclusive or of two bytes. */
  function Xor(a: Octet, b: Octet): Octet {
    XorBitsSmall(a, b, 8); ByteWidth();
    XorBits(a, b, 8)
  }

  lemma XorTwice(a: Octet, b: Octet)
    ensures Xor(Xor(a, b), b) == a
  {
    ByteWidth();
    XorBitsTwice(a, b, 8);
  }

  lemma XorZero(a: Octet)
    ensures Xor(a, 0) == a
  {
    ByteWidth();
    XorBitsZero(a, 8);
  }

  lemma DivTwice(x: nat, p: nat)
    requires p > 0
    ensures x / (2 * p) == x / 2 / p
  {
    var h, r := x / 2, x % 2;
    var q, t := h / p, h % p;
    assert h == p * q + t;
    assert x == 2 * h + r;
    assert 2 * (p * q) == (2 * p) * q;
    Common.DivModUnique(x, 2 * p, q, 2 * t + r);
  }

  /** Bit i of a number, the lowest being bit 0. */
  function BitOf(v: nat, i: nat): nat { v / Pow2(i) % 2 }

  lemma BitOfHalf(v: nat, i: nat)
    ensures BitOf(v, 0) == v % 2
    ensures i > 0 ==> BitOf(v, i) == BitOf(v / 2, i - 1)
  {
    if i > 0 { DivTwice(v, Pow2(i - 1)); }
  }

  lemma XorBitsParts(a: nat, b: nat, n: nat)
    requires n > 0
    ensures XorBits(a, b, n) % 2 == (a + b) % 2 && XorBits(a, b, n) / 2 == XorBits(a / 2, b / 2, n - 1)
  {
    LowAndRest((a + b) % 2, XorBits(a / 2, b / 2, n - 1));
  }

  lemma LowAndRest(p: nat, x: nat)
    requires p < 2
    ensures (p + 2 * x) % 2 == p && (p + 2 * x) / 2 == x
  {}

  /** Each bit of the exclusive or is set exactly when one of the two bits is and the other is not. */
  lemma {:induction false} XorBitsBit(a: nat, b: nat, n: nat, i: nat)
    requires i < n
    ensures BitOf(XorBits(a, b, n), i) == if BitOf(a, i) == BitOf(b, i) then 0 else 1
    decreases n
  {
    hide XorBits, BitOf;
    XorBitsParts(a, b, n);
    BitOfHalf(XorBits(a, b, n), i);
    BitOfHalf(a, i);
    BitOfHalf(b, i);
    if i == 0 {
    } else {
      XorBitsBit(a / 2, b / 2, n - 1, i - 1);
    }
  }

  lemma XorBit(a: Octet, b: Octet, i: nat)
    requires i < 8
    ensures BitOf(Xor(a, b), i) == if BitOf(a, i) == BitOf(b, i) then 0 else 1
  {
    hide BitOf;
    XorBitsBit(a, b, 8, i);
  }

  lemma XorBitsNext(a: nat, b: nat, n: nat)
    requires n > 0
    ensures XorBits(a, b, n) == (a + b) % 2 + 2 * XorBits(a / 2, b / 2, n - 1)
  {}

  lemma XorNibble(a: nat, b: nat, n: nat)
    requires n >= 4
    ensures XorBits(a, b, n) ==
            (a + b) % 2 + 2 * ((a / 2 + b / 2) % 2) + 4 * ((a / 4 + b / 4) % 2) + 8 * ((a / 8 + b / 8) % 2) + 16 * XorBits(a / 16, b / 16, n - 4)
  {
    hide XorBits;
    XorBitsNext(a, b, n);
    XorBitsNext(a / 2, b / 2, n - 1);
    XorBitsNext(a / 4, b / 4, n - 2);
    XorBitsNext(a / 8, b / 8, n - 3);
    assert a / 2 / 2 == a / 4 && a / 4 / 2 == a / 8 && a / 8 / 2 == a / 16;
    assert b / 2 / 2 == b / 4 && b / 4 / 2 == b / 8 && b / 8 / 2 == b / 16;
  }

  /** The exclusive or of two bytes as a sum over their bits. */
  lemma XorSum(a: Octet, b: Octet)
    ensures Xor(a, b) ==
            (a + b) % 2 + 2 * ((a / 2 + b / 2) % 2) + 4 * ((a / 4 + b / 4) % 2) + 8 * ((a / 8 + b / 8) % 2)
            + 16 * ((a / 16 + b / 16) % 2) + 32 * ((a / 32 + b / 32) % 2) + 64 * ((a / 64 + b / 64) % 2) + 128 * ((a / 128 + b / 128) % 2)
  {
    hide XorBits;
    XorNibble(a, b, 8);
    XorNibble(a / 16, b / 16, 4);
    XorNone(a / 16 / 16, b / 16 / 16);
    HighBits(a);
    HighBits(b);
  }

  lemma HighBits(a: nat)
    ensures a / 16 / 2 == a / 32 && a / 16 / 4 == a / 64 && a / 16 / 8 == a / 128
  {}

  lemma XorNone(a: nat, b: nat)
    ensures XorBits(a, b, 0) == 0
  {}

  // ---------- byte strings as numbers ----------

  function Power256(n: nat): (p: nat)
    ensures p > 0
  {
    if n == 0 then 1 else 256 * Power256(n - 1)
  }

  /** The number that the bytes spell, most significant byte first. */
  function Value(s: seq<Octet>): nat {
    if s == [] then 0 else 256 * Value(s[..|s| - 1]) + s[|s| - 1]
  }

  /** The low n bytes of v, most significant byte first. */
  function Digits(v: nat, n: nat): (s: seq<Octet>)
    ensures |s| == n
  {
    if n == 0 then [] else Digits(v / 256, n - 1) + [v % 256]
  }

  lemma ModBy256(v: nat, m: nat)
    requires m > 0
    ensures 256 * ((v / 256) % m) + v % 256 == v % (256 * m)
  {
    var q := v / 256;
    var a, r := q / m, q % m;
    assert q == m * a + r;
    assert v == 256 * q + v % 256;
    assert v == (256 * m) * a + (256 * r + v % 256) by {
      assert 256 * (m * a) == (256 * m) * a;
    }
    Common.DivModUnique(v, 256 * m, a, 256 * r + v % 256);
  }

  /** Keeping n bytes is reducing modulo 256 to the n. */
  lemma {:induction false} ValueOfDigits(v: nat, n: nat)
    ensures Value(Digits(v, n)) == v % Power256(n)
  {
    if n == 0 {
    } else {
      ValueOfDigits(v / 256, n - 1);
      ModBy256(v, Power256(n - 1));
      assert Digits(v, n)[..n - 1] == Digits(v / 256, n - 1);
    }
  }

  lemma {:induction false} DigitsOfValue(s: seq<Octet>)
    ensures Digits(Value(s), |s|) == s
  {
    if s == [] {
    } else {
      DigitsOfValue(s[..|s| - 1]);
      assert s == s[..|s| - 1] + [s[|s| - 1]];
    }
  }

  /** The first byte is the most significant one. */
  lemma {:induction false} ValueFirst(a: Octet, s: seq<Octet>)
    ensures Value([a] + s) == a * Power256(|s|) + Value(s)
    decreases |s|
  {
    if s == [] {
      assert [a] + s == [a] && [a][..0] == [];
    } else {
      var front, last := s[..|s| - 1], s[|s| - 1];
      ValueFirst(a, front);
      assert ([a] + s)[..|s|] == [a] + front;
      assert 256 * (a * Power256(|front|)) == a * (256 * Power256(|front|));
    }
  }
}
