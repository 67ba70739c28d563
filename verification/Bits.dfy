/**
 Bitwise operations of Python's unbounded integers, on natural numbers, and their
 arithmetic meaning where the operands have no bits in common or one is a mask.
 */
module Bits {

  function Pow2(n: nat): (p: nat)
    ensures p > 0
  {
    if n == 0 then 1 else 2 * Pow2(n - 1)
  }

  function BitAnd(x: nat, y: nat): nat {
    if x == 0 || y == 0 then 0
    else 2 * BitAnd(x / 2, y / 2) + (if x % 2 == 1 && y % 2 == 1 then 1 else 0)
  }

  function BitOr(x: nat, y: nat): nat {
    if x == 0 then y
    else if y == 0 then x
    else 2 * BitOr(x / 2, y / 2) + (if x % 2 == 1 || y % 2 == 1 then 1 else 0)
  }

  function ShiftLeft(x: nat, n: nat): nat {
    x * Pow2(n)
  }

  lemma Pow2Seven(n: nat)
    ensures Pow2(n + 7) == 128 * Pow2(n)
  {
    assert Pow2(n + 7) == 2 * Pow2(n + 6);
    assert Pow2(n + 6) == 2 * Pow2(n + 5);
    assert Pow2(n + 5) == 2 * Pow2(n + 4);
    assert Pow2(n + 4) == 2 * Pow2(n + 3);
    assert Pow2(n + 3) == 2 * Pow2(n + 2);
    assert Pow2(n + 2) == 2 * Pow2(n + 1);
  }

  lemma ShiftDoubles(y: nat, n: nat)
    requires n > 0
    ensures ShiftLeft(y, n) == 2 * ShiftLeft(y, n - 1) && (y > 0 ==> ShiftLeft(y, n - 1) > 0)
  {
    assert y * (2 * Pow2(n - 1)) == 2 * (y * Pow2(n - 1));
  }

  lemma {:induction false} OrOfDisjoint(x: nat, y: nat, n: nat)
    requires x < Pow2(n)
    ensures BitOr(x, ShiftLeft(y, n)) == x + ShiftLeft(y, n)
  {
    if n > 0 && x > 0 && y > 0 {
      ShiftDoubles(y, n);
      OrOfDisjoint(x / 2, y, n - 1);
      OrOfEven(x, ShiftLeft(y, n - 1));
    }
  }

  lemma OrOfEven(x: nat, half: nat)
    requires x > 0 && half > 0
    ensures BitOr(x, 2 * half) == 2 * BitOr(x / 2, half) + x % 2
  {
  }

  lemma RemainderUnique(x: int, d: int, q: int, r: int)
    requires d > 0 && 0 <= r < d && x == q * d + r
    ensures x % d == r && x / d == q
  {
    var k := x / d - q;
    assert k * d == r - x % d;
    assert -d < k * d < d;
  }

  lemma RemainderOfDouble(x: int, p: int)
    requires p > 0
    ensures x % (2 * p) == 2 * (x / 2 % p) + x % 2
  {
    var q, r := x / 2 / p, x / 2 % p;
    assert x / 2 == q * p + r;
    assert x == q * (2 * p) + (2 * r + x % 2);
    RemainderUnique(x, 2 * p, q, 2 * r + x % 2);
  }

  lemma {:induction false} AndOfMask(x: nat, n: nat)
    ensures BitAnd(x, Pow2(n) - 1) == x % Pow2(n)
  {
    if x == 0 {
      RemainderUnique(0, Pow2(n), 0, 0);
    } else if n > 0 {
      AndOfMask(x / 2, n - 1);
      AndOfDoubleMask(x, Pow2(n - 1) - 1, Pow2(n - 1));
    }
  }

  lemma AndOfDoubleMask(x: nat, mask: nat, p: int)
    requires x > 0 && p == mask + 1 && BitAnd(x / 2, mask) == x / 2 % p
    ensures BitAnd(x, 2 * mask + 1) == x % (2 * p)
  {
    AndOfOdd(x, mask);
    RemainderOfDouble(x, p);
  }

  lemma AndOfOdd(x: nat, half: nat)
    requires x > 0
    ensures BitAnd(x, 2 * half + 1) == 2 * BitAnd(x / 2, half) + x % 2
  {
    assert (2 * half + 1) / 2 == half;
  }

  /** Testing one bit of a number that has no higher one. */
  lemma {:induction false} AndOfTopBit(x: nat, n: nat)
    requires x < 2 * Pow2(n)
    ensures BitAnd(x, Pow2(n)) == if x >= Pow2(n) then Pow2(n) else 0
  {
    if n > 0 {
      AndOfTopBit(x / 2, n - 1);
    } else {
      assert x == 0 || x == 1;
    }
  }

  // ----- Negative numbers: two's complement without a highest bit -----

  function SignedOr(x: int, y: int): int
    decreases if x < 0 then -x else x
  {
    if x == 0 then y
    else if y == 0 then x
    else if x == -1 || y == -1 then -1
    else 2 * SignedOr(x / 2, y / 2) + (if x % 2 == 1 || y % 2 == 1 then 1 else 0)
  }

  /** Setting all bits from bit `n` on: the bits below it are kept, and the number is negative. */
  lemma {:induction false} OrOfHighBits(x: int, n: nat)
    ensures SignedOr(x, 0 - Pow2(n)) == x % Pow2(n) - Pow2(n)
    decreases n
  {
    var p: int := Pow2(n);
    if x == 0 {
      RemainderUnique(0, p, 0, 0);
    } else if x == -1 {
      RemainderUnique(-1, p, -1, p - 1);
    } else if n > 0 {
      var half: int := Pow2(n - 1);
      OrOfHighBits(x / 2, n - 1);
      assert (-p) / 2 == -half && (-p) % 2 == 0;
      RemainderOfDouble(x, half);
    } else {
      RemainderUnique(x, 1, x, 0);
    }
  }
}
