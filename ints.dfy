/** Fixed-width C++ integer types, and the handful of unsigned bit operations
    the animation code uses, stated on mathematical integers.

    An unsigned right shift by k is division by 2^k, and masking with
    2^k - 1 keeps the remainder modulo 2^k (lemma AndLowMask); for the other
    masks the model keeps a genuine bitwise `And`. */
module Ints {

  type uint8 = x: int | 0 <= x < 0x100
  type uint16 = x: int | 0 <= x < 0x1_0000
  type uint32 = x: int | 0 <= x < 0x1_0000_0000
  type int8 = x: int | -0x80 <= x < 0x80
  type int16 = x: int | -0x8000 <= x < 0x8000
  type int32 = x: int | -0x8000_0000 <= x < 0x8000_0000

  const TWO_TO_32: nat := 0x1_0000_0000

  /** The conversion of a C++ integer to `uint32_t`: the value modulo 2^32.
      It is also the result of every `uint32_t` addition, subtraction and
      multiplication, which wrap around. */
  function Wrap32(x: int): (r: uint32)
    ensures 0 <= x < TWO_TO_32 ==> r == x
    ensures (r - x) % TWO_TO_32 == 0
  {
    x % TWO_TO_32
  }

  /** Wrapping to 32 bits keeps the low byte. */
  lemma Wrap32LowByte(x: int)
    ensures Wrap32(x) % 0x100 == x % 0x100
  {
    var w := Wrap32(x);
    var a := x / TWO_TO_32;
    assert x == TWO_TO_32 * a + w;
    DivModUnique(x, 0x100, 0x100_0000 * a + w / 0x100, w % 0x100);
  }

  function Pow2(k: nat): (r: nat)
    ensures r >= 1
  {
    if k == 0 then 1 else 2 * Pow2(k - 1)
  }

  /** Bitwise and of two non-negative integers (C++ `&` on unsigned values),
      bit by bit from the least significant one. */
  function And(a: nat, b: nat): (r: nat)
    ensures r <= a && r <= b
    decreases a
  {
    if a == 0 || b == 0 then 0
    else 2 * And(a / 2, b / 2) + (if a % 2 == 1 && b % 2 == 1 then 1 else 0)
  }

  lemma MulNonneg(a: int, b: int)
    requires a >= 0 && b >= 0
    ensures a * b >= 0
  {}

  lemma Distrib(d: int, q: int, q0: int)
    ensures d * q - d * q0 == d * (q - q0)
  {}

  lemma MulTwice(c: int, p: int, pp: int)
    requires pp == 2 * p
    ensures c * pp == 2 * (c * p)
  {}

  /** The definition of `And`, one bit at a time. */
  lemma AndLowestBit(x: nat, y: nat)
    requires x != 0 && y != 0
    ensures And(x, y) == 2 * And(x / 2, y / 2) + (if x % 2 == 1 && y % 2 == 1 then 1 else 0)
  {}

  /** Division with remainder is unique. */
  lemma DivModUnique(x: int, d: int, q: int, r: int)
    requires d > 0 && 0 <= r < d && x == d * q + r
    ensures x / d == q && x % d == r
  {
    var q0, r0 := x / d, x % d;
    assert x == d * q0 + r0;
    Distrib(d, q, q0);
    if q > q0 {
      MulNonneg(d, q - q0 - 1);
      Distrib(d, q - q0, 1);
      assert false;
    }
    if q < q0 {
      MulNonneg(d, q0 - q - 1);
      Distrib(d, q0 - q, 1);
      Distrib(d, q0, q);
      assert false;
    }
  }

  /** Adding a multiple of n does not change the remainder modulo n. */
  lemma ModAddMultiple(x: int, a: int, n: int)
    requires n > 0
    ensures (x + n * a) % n == x % n
  {
    var q, r := x / n, x % n;
    assert x == n * q + r;
    Distrib(n, q + a, a);
    DivModUnique(x + n * a, n, q + a, r);
  }

  /** The remainder modulo n of a value within n of the range [0, n). */
  lemma ModNear(x: int, n: int)
    requires n > 0 && -n <= x < 2 * n
    ensures x % n == if x < 0 then x + n else if x < n then x else x - n
  {
    if x < 0 {
      DivModUnique(x, n, -1, x + n);
    } else if x < n {
      DivModUnique(x, n, 0, x);
    } else {
      DivModUnique(x, n, 1, x - n);
    }
  }

  /** Splitting off the lowest bit: x divided by 2p, bit by bit. */
  lemma HalveDivMod(x: nat, p: nat)
    requires p >= 1
    ensures x / (2 * p) == (x / 2) / p
    ensures x % (2 * p) == 2 * ((x / 2) % p) + x % 2
  {
    var h := x / 2;
    assert x == 2 * h + x % 2;
    assert h == p * (h / p) + h % p;
    assert x == (2 * p) * (h / p) + (2 * (h % p) + x % 2);
    DivModUnique(x, 2 * p, h / p, 2 * (h % p) + x % 2);
  }

  /** Masking with k low one-bits keeps the remainder modulo 2^k. */
  lemma {:induction false} AndLowMask(x: nat, k: nat)
    ensures And(x, Pow2(k) - 1) == x % Pow2(k)
  {
    if k == 0 {
    } else if x == 0 {
    } else {
      var p := Pow2(k - 1);
      DivModUnique(2 * p - 1, 2, p - 1, 1);
      AndLowMask(x / 2, k - 1);
      HalveDivMod(x, p);
    }
  }

  /** Bitwise and acts independently on the bits below 2^k and those above:
      there is no carry between the two parts. */
  lemma {:induction false} AndSplit(a: nat, b: nat, m: nat, n: nat, k: nat)
    requires b < Pow2(k) && n < Pow2(k)
    ensures And(a * Pow2(k) + b, m * Pow2(k) + n) == And(a, m) * Pow2(k) + And(b, n)
  {
    if k == 0 {
      return;
    }
    var p, pp := Pow2(k - 1), Pow2(k);
    assert pp == 2 * p;
    MulNonneg(a, pp);
    MulNonneg(m, pp);
    MulNonneg(a, p);
    MulNonneg(m, p);
    var x: nat, y: nat := a * pp + b, m * pp + n;
    if x == 0 || y == 0 {
      AndZeroSides(a, b, m, n, pp);
    } else {
      var x2: nat, y2: nat := a * p + b / 2, m * p + n / 2;
      AndSplit(a, b / 2, m, n / 2, k - 1);
      AndSplitStep(a, b, m, n, p, pp, x, y, x2, y2);
    }
  }

  /** One bit of `AndSplit`: the lowest bits of x and y are those of b and
      n, and halving x and y is the split one position down. */
  lemma AndSplitStep(a: nat, b: nat, m: nat, n: nat, p: nat, pp: nat, x: nat, y: nat, x2: nat, y2: nat)
    requires p >= 1 && pp == 2 * p && b < pp && n < pp
    requires x == a * pp + b != 0 && y == m * pp + n != 0
    requires x2 == a * p + b / 2 && y2 == m * p + n / 2
    requires And(x2, y2) == And(a, m) * p + And(b / 2, n / 2)
    ensures And(x, y) == And(a, m) * pp + And(b, n)
  {
    MulTwice(a, p, pp);
    MulTwice(m, p, pp);
    MulTwice(And(a, m), p, pp);
    DivModUnique(x, 2, x2, b % 2);
    DivModUnique(y, 2, y2, n % 2);
    AndLowestBit(x, y);
    if b != 0 && n != 0 {
      AndLowestBit(b, n);
    }
  }

  lemma AndZeroSides(a: nat, b: nat, m: nat, n: nat, q: nat)
    requires q >= 1
    requires a * q + b == 0 || m * q + n == 0
    ensures And(a * q + b, m * q + n) == 0 == And(a, m) * q + And(b, n)
  {
    MulNonneg(a, q);
    MulNonneg(m, q);
    if a * q + b == 0 {
      assert a * q == 0;
      assert a == 0 && b == 0;
    } else {
      assert m * q == 0;
      assert m == 0 && n == 0;
    }
  }

  /** Testing bit k with the mask 2^k. */
  lemma {:induction false} AndBit(x: nat, k: nat)
    ensures And(x, Pow2(k)) != 0 <==> (x / Pow2(k)) % 2 == 1
  {
    if k == 0 {
    } else if x == 0 {
    } else {
      var p := Pow2(k - 1);
      DivModUnique(2 * p, 2, p, 0);
      AndBit(x / 2, k - 1);
      HalveDivMod(x, p);
    }
  }

  lemma FloorDivBounds(a: nat, b: int)
    requires b > 0
    ensures 0 <= (a / b) * b <= a < (a / b) * b + b
  {
    assert a == b * (a / b) + a % b;
  }

  /** C++ integer division, which truncates toward zero (Dafny's `/` rounds
      toward minus infinity for a negative dividend). */
  function TruncDiv(a: int, b: int): (r: int)
    requires b > 0
    ensures a >= 0 ==> 0 <= r * b <= a < r * b + b
    ensures a < 0 ==> r * b - b < a <= r * b <= 0
  {
    if a >= 0 then
      FloorDivBounds(a, b);
      a / b
    else
      FloorDivBounds(-a, b);
      -((-a) / b)
  }
}
