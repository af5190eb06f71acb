/**
 * Integer semantics of JavaScript's 32-bit operators, on unbounded integers.
 *
 * The source uses `x | 0`, `x | y`, `x >> n`, `x & (1 << n)` and
 * `String.fromCharCode`. ECMA-262 defines them through ToInt32 and
 * ToUint16 (sections 7.1.6 and 7.1.8 of the 2023 edition) and two's
 * complement bit operations. Here every integer is read as an infinite
 * two's complement bit string, so a negative number has infinitely many
 * leading ones, and floor division by a power of two is an arithmetic
 * right shift.
 */
module Bits {

  function Pow2(k: nat): (p: nat)
    ensures p >= 1
  {
    if k == 0 then 1 else 2 * Pow2(k - 1)
  }

  const TWO_32: int := 0x1_0000_0000
  const MIN_INT32: int := -0x8000_0000
  const MAX_INT32: int := 0x7FFF_FFFF

  predicate IsInt32(x: int) {
    MIN_INT32 <= x <= MAX_INT32
  }

  /** ToInt32: wrap an integer into the signed 32-bit range. */
  function ToInt32(x: int): (r: int)
    ensures IsInt32(r)
    ensures (x - r) % TWO_32 == 0
    ensures IsInt32(x) ==> r == x
  {
    var m := x % TWO_32;
    if m <= MAX_INT32 then m else m - TWO_32
  }

  /** ToUint16: wrap an integer into a UTF-16 code unit. */
  function ToUint16(x: int): (r: int)
    ensures 0 <= r < 0x1_0000
    ensures (x - r) % 0x1_0000 == 0
  {
    x % 0x1_0000
  }

  /** Bit `i` of `x` in two's complement. */
  predicate TestBit(x: int, i: nat) {
    (x / Pow2(i)) % 2 == 1
  }

  /** Bitwise or of two non-negative integers. */
  function OrNat(a: nat, b: nat): nat
    decreases a + b
  {
    if a == 0 then b
    else if b == 0 then a
    else 2 * OrNat(a / 2, b / 2) + (if a % 2 == 1 || b % 2 == 1 then 1 else 0)
  }

  /** Bitwise and of two non-negative integers. */
  function AndNat(a: nat, b: nat): nat
    decreases a + b
  {
    if a == 0 || b == 0 then 0
    else 2 * AndNat(a / 2, b / 2) + (if a % 2 == 1 && b % 2 == 1 then 1 else 0)
  }

  /** `a & ~b` for two non-negative integers. */
  function AndNotNat(a: nat, b: nat): nat
    decreases a
  {
    if a == 0 then 0
    else 2 * AndNotNat(a / 2, b / 2) + (if a % 2 == 1 && b % 2 == 0 then 1 else 0)
  }

  /** Bitwise or of two's complement integers; `~x` is `-1 - x`. */
  function BitOr(a: int, b: int): int {
    if a >= 0 && b >= 0 then OrNat(a, b)
    else if a < 0 && b < 0 then -1 - AndNat(-1 - a, -1 - b)
    else if a < 0 then -1 - AndNotNat(-1 - a, b)
    else -1 - AndNotNat(-1 - b, a)
  }

  /** JavaScript `a >> n` for a shift count `n >= 0`: the count is taken modulo 32. */
  function ShiftRight(a: int, n: nat): int {
    ToInt32(a) / Pow2(n % 32)
  }

  /** JavaScript `a | b`. */
  function Or32(a: int, b: int): int {
    BitOr(ToInt32(a), ToInt32(b))
  }

  /** JavaScript `(a & (1 << n)) != 0` for `n >= 0`. */
  predicate AndShiftedOne(a: int, n: nat) {
    TestBit(ToInt32(a), n % 32)
  }

  /** Number of significant bits of a non-negative integer. */
  function BitLength(x: nat): nat {
    if x == 0 then 0 else 1 + BitLength(x / 2)
  }

  // ---------------------------------------------------------------------------
  // Division facts.

  lemma MulAtLeast(d: int, k: int)
    requires d > 0 && k >= 1
    ensures d * k >= d
  {
    assert d * k == d * (k - 1) + d;
    assert d * (k - 1) >= 0;
  }

  lemma DivUnique(x: int, d: int, q: int, r: int)
    requires d > 0 && x == d * q + r && 0 <= r < d
    ensures x / d == q && x % d == r
  {
    var q0, r0 := x / d, x % d;
    assert d * q0 + r0 == x;
    if q0 < q {
      assert d * q == d * q0 + d * (q - q0);
      MulAtLeast(d, q - q0);
      assert false;
    } else if q < q0 {
      assert d * q0 == d * q + d * (q0 - q);
      MulAtLeast(d, q0 - q);
      assert false;
    }
  }

  lemma MulDistrib(a: int, b: int, q: int, r: int)
    ensures a * (b * q + r) == (a * b) * q + a * r
  {
  }

  lemma MulBelow(a: int, r: int, b: int)
    requires a > 0 && 0 <= r < b
    ensures 0 <= a * r && a * r + a <= a * b
  {
    assert a * b == a * r + a * (b - r);
    MulAtLeast(a, b - r);
  }

  lemma DivDiv(x: int, a: int, b: int)
    requires a > 0 && b > 0
    ensures (x / a) / b == x / (a * b)
  {
    var q, r := x / a, x % a;
    var q2, r2 := q / b, q % b;
    var ab := a * b;
    assert x == a * q + r;
    assert q == b * q2 + r2;
    MulDistrib(a, b, q2, r2);
    assert x == ab * q2 + (a * r2 + r);
    MulBelow(a, r2, b);
    DivUnique(x, ab, q2, a * r2 + r);
  }

  lemma Pow2Of31()
    ensures Pow2(31) == 0x8000_0000
  {
    assert Pow2(8) == 0x100;
    assert Pow2(16) == 0x1_0000 by { Pow2Add(8, 8); }
    assert Pow2(24) == 0x100_0000 by { Pow2Add(16, 8); }
    Pow2Add(24, 7);
  }

  lemma Pow2Add(a: nat, b: nat)
    ensures Pow2(a + b) == Pow2(a) * Pow2(b)
  {
    if a > 0 {
      Pow2Add(a - 1, b);
    }
  }

  lemma DivPow2(x: int, s: nat, i: nat)
    ensures (x / Pow2(s)) / Pow2(i) == x / Pow2(s + i)
  {
    DivDiv(x, Pow2(s), Pow2(i));
    Pow2Add(s, i);
  }

  lemma DivMono(a: int, b: int, d: int)
    requires d > 0 && a <= b
    ensures a / d <= b / d
  {
    var qa, qb := a / d, b / d;
    assert d * qa + a % d == a;
    assert d * qb + b % d == b;
    if qa > qb {
      assert d * qa == d * qb + d * (qa - qb);
      MulAtLeast(d, qa - qb);
      assert false;
    }
  }

  /** Complementing commutes with an arithmetic right shift. */
  lemma ComplementDiv(y: int, p: int)
    requires p > 0
    ensures -1 - y / p == (-1 - y) / p
  {
    var q, r := y / p, y % p;
    assert -1 - y == p * (-1 - q) + (p - 1 - r);
    DivUnique(-1 - y, p, -1 - q, p - 1 - r);
  }

  lemma TestBitStep(x: int, i: nat)
    requires i > 0
    ensures TestBit(x, i) == TestBit(x / 2, i - 1)
  {
    DivDiv(x, 2, Pow2(i - 1));
  }

  lemma TestBitShift(y: int, s: nat, i: nat)
    ensures TestBit(y / Pow2(s), i) == TestBit(y, i + s)
  {
    DivPow2(y, s, i);
  }

  // ---------------------------------------------------------------------------
  // Facts about the bitwise functions.

  lemma {:induction false} OrNatBit(a: nat, b: nat, i: nat)
    ensures TestBit(OrNat(a, b), i) == (TestBit(a, i) || TestBit(b, i))
    decreases i
  {
    if a == 0 {
      assert TestBit(a, i) == false by { assert 0 / Pow2(i) == 0; }
    } else if b == 0 {
      assert TestBit(b, i) == false by { assert 0 / Pow2(i) == 0; }
    } else if i == 0 {
    } else {
      var o := OrNat(a, b);
      var bit := if a % 2 == 1 || b % 2 == 1 then 1 else 0;
      assert o == 2 * OrNat(a / 2, b / 2) + bit;
      assert o / 2 == OrNat(a / 2, b / 2);
      TestBitStep(o, i);
      TestBitStep(a, i);
      TestBitStep(b, i);
      OrNatBit(a / 2, b / 2, i - 1);
    }
  }

  lemma {:induction false} OrNatBound(a: nat, b: nat, n: nat)
    requires a < Pow2(n) && b < Pow2(n)
    ensures OrNat(a, b) < Pow2(n)
    decreases n
  {
    if a != 0 && b != 0 {
      assert n > 0;
      OrNatBound(a / 2, b / 2, n - 1);
    }
  }

  lemma {:induction false} OrNatSelf(a: nat)
    ensures OrNat(a, a) == a
    decreases a
  {
    if a != 0 {
      OrNatSelf(a / 2);
    }
  }

  lemma {:induction false} AndNatBound(a: nat, b: nat)
    ensures AndNat(a, b) <= b
    decreases a + b
  {
    if a != 0 && b != 0 {
      AndNatBound(a / 2, b / 2);
    }
  }

  /** A number below 2^n whose n low bits are all set is 2^n - 1. */
  lemma {:induction false} AllOnes(y: nat, n: nat)
    requires y < Pow2(n)
    requires forall i: nat :: i < n ==> TestBit(y, i)
    ensures y == Pow2(n) - 1
    decreases n
  {
    if n > 0 {
      assert TestBit(y, 0);
      forall i: nat | i < n - 1
        ensures TestBit(y / 2, i)
      {
        TestBitStep(y, i + 1);
      }
      AllOnes(y / 2, n - 1);
    }
  }

  lemma {:induction false} BitLengthBounds(x: nat)
    ensures x < Pow2(BitLength(x))
    ensures x > 0 ==> Pow2(BitLength(x) - 1) <= x && TestBit(x, BitLength(x) - 1)
    decreases x
  {
    if x > 0 {
      BitLengthBounds(x / 2);
      var l := BitLength(x);
      if x / 2 > 0 {
        TestBitStep(x, l - 1);
      } else {
        assert x == 1;
      }
    }
  }

  lemma BitLengthOfPow2Pred(k: nat)
    ensures BitLength(Pow2(k) - 1) == k
  {
    if k > 0 {
      BitLengthOfPow2Pred(k - 1);
      assert (Pow2(k) - 1) / 2 == Pow2(k - 1) - 1;
    }
  }

  lemma BitLengthMono(x: nat, n: nat)
    requires x < Pow2(n)
    ensures BitLength(x) <= n
  {
    if x > 0 {
      assert n > 0;
      BitLengthMono(x / 2, n - 1);
    }
  }
}
