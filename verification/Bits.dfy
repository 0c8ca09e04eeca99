/** Shifts and bitwise `or` on Python's unbounded integers. */
module Bits {
  function Abs(n: int): nat {
    if n < 0 then -n else n
  }

  /** `a | b` on Python's unbounded integers, where a negative number is an endless row of ones. */
  function BitOr(a: int, b: int): int
    decreases Abs(a) + Abs(b)
  {
    if a == 0 then b
    else if a == -1 then -1
    else if b == 0 then a
    else if b == -1 then -1
    else 2 * BitOr(a / 2, b / 2) + if a % 2 == 1 || b % 2 == 1 then 1 else 0
  }

  function Pow2(k: nat): nat {
    if k == 0 then 1 else 2 * Pow2(k - 1)
  }

  function ShiftLeft(a: int, k: nat): int {
    a * Pow2(k)
  }

  /** Below the shifted bits nothing overlaps, so `|` is `+`. */
  lemma {:induction false} OrIsSum(a: int, b: nat, k: nat)
    requires b < Pow2(k)
    ensures BitOr(ShiftLeft(a, k), b) == ShiftLeft(a, k) + b
    decreases k
  {
    if k == 0 {
      OrWithZero(ShiftLeft(a, k));
    } else {
      var high := ShiftLeft(a, k - 1);
      assert ShiftLeft(a, k) == 2 * high by {
        assert a * (2 * Pow2(k - 1)) == 2 * (a * Pow2(k - 1));
      }
      OrIsSum(a, b / 2, k - 1);
      OrOfDouble(high, b);
    }
  }

  lemma OrWithZero(a: int)
    ensures BitOr(a, 0) == a && BitOr(0, a) == a
  {
  }

  lemma OrOfDouble(high: int, b: nat)
    ensures BitOr(2 * high, b) == 2 * BitOr(high, b / 2) + b % 2
  {
    OrWithZero(high);
    OrWithZero(b / 2);
    assert (2 * high) / 2 == high && (2 * high) % 2 == 0;
    if high == -1 && b > 1 {
      OrWithAllOnes(b / 2);
      assert BitOr(-2, b) == 2 * BitOr(-1, b / 2) + b % 2;
    }
  }

  lemma OrWithAllOnes(b: int)
    ensures BitOr(-1, b) == -1
  {
  }

  lemma WordIs32Bits()
    ensures Pow2(32) == 0x1_0000_0000
  {
    assert Pow2(8) == 0x100;
    assert Pow2(16) == 0x1_0000 by { assert Pow2(12) == 0x1000; }
    assert Pow2(24) == 0x100_0000 by { assert Pow2(20) == 0x10_0000; }
    assert Pow2(28) == 0x1000_0000;
  }

  lemma {:induction false} OrOfSame(a: nat)
    ensures BitOr(a, a) == a
    decreases a
  {
    if a > 0 {
      OrOfSame(a / 2);
    }
  }
}
