/**
 The working-set sizes of `configs/dram/lat_mem_rd.py`: from 4 kByte up, in steps that double
 whenever a power of two is reached.
 */
module RangeSweep {
  import opened Bits

  const MIN_RANGE: nat := 4096

  // ----- The power-of-two test -----

  /** `is_pow2`. */
  predicate IsPow2(num: nat) {
    num != 0 && BitAnd(num, num - 1) == 0
  }

  lemma {:induction false} AndWithSelf(x: nat)
    ensures BitAnd(x, x) == x
  {
    if x > 0 {
      AndWithSelf(x / 2);
    }
  }

  lemma {:induction false} Pow2Passes(k: nat)
    ensures IsPow2(Pow2(k))
  {
    if k > 0 {
      Pow2Passes(k - 1);
      var half := Pow2(k - 1);
      assert (2 * half - 1) / 2 == half - 1;
    }
  }

  lemma {:induction false} PassingIsPow2(num: nat) returns (k: nat)
    requires IsPow2(num)
    ensures num == Pow2(k)
  {
    k := 0;
    if num > 1 && num % 2 == 0 {
      var half := num / 2;
      assert (num - 1) / 2 == half - 1;
      k := PassingIsPow2(half);
      k := k + 1;
    } else if num > 1 {
      assert (num - 1) / 2 == num / 2;
      AndWithSelf(num / 2);
    }
  }

  /** The bit test is passed by the powers of two and by nothing else. */
  lemma IsPow2Exactly(num: nat)
    ensures IsPow2(num) <==> exists k: nat :: num == Pow2(k)
  {
    if IsPow2(num) {
      var k := PassingIsPow2(num);
      assert num == Pow2(k);
    }
    if k: nat :| num == Pow2(k) {
      Pow2Passes(k);
    }
  }

  // ----- The sizes in closed form -----

  /** Size number `i`: quarters 4 to 7 of each power of two from 2^12 on. */
  function Size(i: nat): nat {
    (4 + i % 4) * Pow2(10 + i / 4)
  }

  /** The step taken from size number `i`. */
  function Step(i: nat): nat {
    Pow2(10 + i / 4)
  }

  lemma SizeNext(i: nat)
    ensures Size(i + 1) == Size(i) + Step(i)
    ensures Step(i + 1) == if (i + 1) % 4 == 0 then 2 * Step(i) else Step(i)
  {
    if i % 4 == 3 {
      assert (i + 1) / 4 == i / 4 + 1 && (i + 1) % 4 == 0;
      assert Pow2(10 + i / 4 + 1) == 2 * Pow2(10 + i / 4);
    } else {
      assert (i + 1) / 4 == i / 4 && (i + 1) % 4 == i % 4 + 1;
    }
  }

  lemma {:induction false} SizesAscend(i: nat, j: nat)
    requires i < j
    ensures Size(i) < Size(j)
  {
    SizeNext(j - 1);
    if i < j - 1 {
      SizesAscend(i, j - 1);
    }
  }

  lemma Pow2Ten()
    ensures Pow2(10) == 1024 && Pow2(12) == 4096
  {
    assert Pow2(3) == 8;
    Pow2Seven(3);
    assert Pow2(12) == 2 * Pow2(11) && Pow2(11) == 2 * Pow2(10);
  }

  lemma {:induction false} Pow2Ascends(a: nat, b: nat)
    requires a < b
    ensures Pow2(a) < Pow2(b)
  {
    if a < b - 1 {
      Pow2Ascends(a, b - 1);
    }
  }

  /** The step is a quarter of the largest power of two not above the size. */
  lemma StepIsQuarter(i: nat)
    ensures var p := 4 * Step(i);
            p == Pow2(12 + i / 4) && p <= Size(i) < 2 * p
  {
    assert Pow2(12 + i / 4) == 2 * Pow2(11 + i / 4) && Pow2(11 + i / 4) == 2 * Pow2(10 + i / 4);
  }

  /** A size is a power of two exactly when its number is a multiple of four. */
  lemma SizeIsPow2(i: nat)
    ensures IsPow2(Size(i)) <==> i % 4 == 0
    ensures i % 4 == 0 ==> Size(i) == Pow2(12 + i / 4)
  {
    StepIsQuarter(i);
    IsPow2Exactly(Size(i));
    if i % 4 != 0 {
      forall k: nat
        ensures Size(i) != Pow2(k)
      {
        if k < 12 + i / 4 {
          Pow2Ascends(k, 12 + i / 4);
        } else if k > 12 + i / 4 {
          Pow2NotBelow(12 + i / 4 + 1, k);
        }
      }
    }
  }

  lemma Pow2NotBelow(a: nat, b: nat)
    requires a <= b
    ensures Pow2(a) <= Pow2(b)
  {
    if a < b {
      Pow2Ascends(a, b);
    }
  }

  // ----- The loop -----

  /** The sizes numbered 0 to `n - 1`. */
  ghost predicate FirstSizes(ranges: seq<nat>, n: nat) {
    |ranges| == n && forall i :: 0 <= i < n ==> ranges[i] == Size(i)
  }

  lemma {:induction false} SizeAtLeast(i: nat)
    ensures Size(i) >= i
  {
    if i > 0 {
      SizeAtLeast(i - 1);
      SizeNext(i - 1);
    }
  }

  /** The loop stops with the first size that reaches the maximum, and has listed all before it. */
  method Ranges(maxRange: nat) returns (ranges: seq<nat>)
    ensures ranges != [] && FirstSizes(ranges, |ranges|)
    ensures ranges[|ranges| - 1] >= maxRange
    ensures forall i :: 0 <= i < |ranges| - 1 ==> ranges[i] < maxRange
  {
    Pow2Ten();
    ranges := [MIN_RANGE];
    var step := 1024;
    assert ranges[0] == Size(0) && step == Step(0);
    while ranges[|ranges| - 1] < maxRange
      invariant ranges != [] && FirstSizes(ranges, |ranges|) && step == Step(|ranges| - 1)
      invariant forall i :: 0 <= i < |ranges| - 1 ==> ranges[i] < maxRange
      decreases maxRange - ranges[|ranges| - 1]
    {
      var i := |ranges| - 1;
      SizeNext(i);
      SizeIsPow2(i + 1);
      var newRange := ranges[i] + step;
      if IsPow2(newRange) {
        step := step * 2;
      }
      ranges := ranges + [newRange];
    }
  }

  lemma Pow2Injective(a: nat, b: nat)
    requires Pow2(a) == Pow2(b)
    ensures a == b
  {
    if a < b {
      Pow2Ascends(a, b);
    } else if b < a {
      Pow2Ascends(b, a);
    }
  }

  lemma Pow2IsEveryFourth(i: nat, k: nat)
    requires Size(i) == Pow2(k)
    ensures i == 4 * (k - 12)
  {
    IsPow2Exactly(Size(i));
    SizeIsPow2(i);
    Pow2Injective(k, 12 + i / 4);
  }

  lemma Pow2IsFourth(k: nat)
    requires 12 <= k
    ensures Size(4 * (k - 12)) == Pow2(k)
  {
    var i := 4 * (k - 12);
    assert i % 4 == 0 && i / 4 == k - 12;
    SizeIsPow2(i);
  }

  lemma SizesOrder(last: nat, i: nat)
    requires Size(i) <= Size(last)
    ensures i <= last
  {
    if last < i {
      SizesAscend(last, i);
    }
  }

  lemma Pow2IsListed(ranges: seq<nat>, k: nat)
    requires ranges != [] && FirstSizes(ranges, |ranges|) && 12 <= k && Pow2(k) <= ranges[|ranges| - 1]
    ensures 4 * (k - 12) < |ranges| && ranges[4 * (k - 12)] == Pow2(k)
  {
    Pow2IsFourth(k);
    SizesOrder(|ranges| - 1, 4 * (k - 12));
  }

  /** What is listed: strictly ascending sizes, with every power of two up to the last one, four to a doubling. */
  lemma ListedSizes(ranges: seq<nat>)
    requires ranges != [] && FirstSizes(ranges, |ranges|)
    ensures forall i, j :: 0 <= i < j < |ranges| ==> ranges[i] < ranges[j]
    ensures forall k: nat :: 12 <= k && Pow2(k) <= ranges[|ranges| - 1] ==>
              4 * (k - 12) < |ranges| && ranges[4 * (k - 12)] == Pow2(k)
    ensures forall i, k: nat :: 0 <= i < |ranges| && ranges[i] == Pow2(k) ==> i == 4 * (k - 12)
  {
    forall i, j | 0 <= i < j < |ranges|
      ensures ranges[i] < ranges[j]
    {
      SizesAscend(i, j);
    }
    forall k: nat | 12 <= k && Pow2(k) <= ranges[|ranges| - 1]
      ensures 4 * (k - 12) < |ranges| && ranges[4 * (k - 12)] == Pow2(k)
    {
      Pow2IsListed(ranges, k);
    }
    forall i, k: nat | 0 <= i < |ranges| && ranges[i] == Pow2(k)
      ensures i == 4 * (k - 12)
    {
      Pow2IsEveryFourth(i, k);
    }
  }
}
