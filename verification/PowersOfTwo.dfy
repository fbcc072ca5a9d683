/** The bit test for powers of two (crates/spark/src/tree/select_helper.rs) and their divisibility. */
module PowersOfTwo {

  /** Bitwise AND of two unsigned numbers, bit by bit. */
  function BitAnd(a: nat, b: nat): nat {
    if a == 0 || b == 0 then 0 else 2 * BitAnd(a / 2, b / 2) + (a % 2) * (b % 2)
  }

  predicate IsPowerOfTwo(value: nat) {
    value > 0 && BitAnd(value, value - 1) == 0
  }

  function Pow2(k: nat): nat {
    if k == 0 then 1 else 2 * Pow2(k - 1)
  }

  lemma {:induction false} BitAndSelf(a: nat)
    ensures BitAnd(a, a) == a
  {
    if a != 0 { BitAndSelf(a / 2); }
  }

  lemma HalfOfPowerOfTwo(value: nat)
    requires IsPowerOfTwo(value) && value > 1
    ensures value % 2 == 0 && IsPowerOfTwo(value / 2)
  {
    if value % 2 == 1 {
      assert (value - 1) / 2 == value / 2;
      BitAndSelf(value / 2);
      assert false;
    } else {
      assert (value - 1) / 2 == value / 2 - 1;
    }
  }

  lemma {:induction false} PowerHasTheBitShape(k: nat)
    ensures IsPowerOfTwo(Pow2(k))
  {
    if k > 0 {
      PowerHasTheBitShape(k - 1);
      var half := Pow2(k - 1);
      assert (2 * half) / 2 == half && (2 * half - 1) / 2 == half - 1;
    }
  }

  /** The bit trick recognises exactly the powers of two. */
  lemma {:induction false} BitTrickIsPowerOfTwo(value: nat)
    ensures IsPowerOfTwo(value) <==> exists k: nat :: value == Pow2(k)
  {
    if k: nat :| value == Pow2(k) {
      PowerHasTheBitShape(k);
    }
    if IsPowerOfTwo(value) {
      if value == 1 {
        assert value == Pow2(0);
      } else {
        HalfOfPowerOfTwo(value);
        BitTrickIsPowerOfTwo(value / 2);
        var k: nat :| value / 2 == Pow2(k);
        assert value == Pow2(k + 1);
      }
    }
  }

  /** The mask with the low k bits set keeps what fits into them. */
  lemma {:induction false} LowBits(a: nat, k: nat)
    requires a < Pow2(k)
    ensures BitAnd(a, Pow2(k) - 1) == a
  {
    if k > 0 {
      var half := Pow2(k - 1);
      LowBits(a / 2, k - 1);
      assert (2 * half - 1) / 2 == half - 1 && (2 * half - 1) % 2 == 1;
    }
  }

  lemma HalvedMask(a: nat, m: nat)
    ensures BitAnd(a, 2 * m) == 2 * BitAnd(a / 2, m)
  {
    assert (2 * m) / 2 == m && (2 * m) % 2 == 0;
  }

  lemma EighthMask(a: nat, m: nat)
    ensures BitAnd(a, 8 * m) == 8 * BitAnd(a / 8, m)
  {
    HalvedMask(a, 4 * m);
    HalvedMask(a / 2, 2 * m);
    HalvedMask(a / 2 / 2, m);
    assert a / 2 / 2 / 2 == a / 8;
  }

  /** A mask whose low six bits are clear works on the bits above. */
  lemma LowSixClear(a: nat, m: nat)
    ensures BitAnd(a, 64 * m) == 64 * BitAnd(a / 64, m)
  {
    EighthMask(a, 8 * m);
    EighthMask(a / 8, m);
    assert a / 8 / 8 == a / 64;
  }

  lemma TwiceProduct(a: int, b: int)
    ensures 2 * (a * b) == (2 * a) * b
  {
  }

  lemma {:induction false} PowSum(j: nat, k: nat)
    ensures Pow2(j + k) == Pow2(j) * Pow2(k)
  {
    if j > 0 {
      PowSum(j - 1, k);
      assert Pow2(j + k) == 2 * Pow2(j - 1 + k);
      TwiceProduct(Pow2(j - 1), Pow2(k));
    }
  }

  lemma PowSquare(k: nat, v: nat)
    requires Pow2(k) == v
    ensures Pow2(2 * k) == v * v
  {
    PowSum(k, k);
  }

  /** `n` is a whole number of `d`s. */
  predicate Multiple(n: nat, d: nat)
    requires d > 0
  {
    n == 0 || (n >= d && Multiple(n - d, d))
  }

  lemma {:induction false} DoubleMultiple(n: nat, d: nat)
    requires d > 0 && Multiple(n, d)
    ensures Multiple(2 * n, 2 * d)
  {
    if n > 0 { DoubleMultiple(n - d, d); }
  }

  lemma {:induction false} MultipleDifference(n: nat, m: nat, d: nat)
    requires d > 0 && m <= n && Multiple(n, d) && Multiple(m, d)
    ensures Multiple(n - m, d)
  {
    if m > 0 { MultipleDifference(n - d, m - d, d); }
  }

  lemma {:induction false} MultipleOfOne(n: nat)
    ensures Multiple(n, 1)
  {
    if n > 0 { MultipleOfOne(n - 1); }
  }

  lemma {:induction false} SmallerPowerDivides(a: nat, b: nat)
    requires IsPowerOfTwo(a) && IsPowerOfTwo(b) && b <= a
    ensures Multiple(a, b)
  {
    if b == 1 {
      MultipleOfOne(a);
    } else {
      HalfOfPowerOfTwo(a);
      HalfOfPowerOfTwo(b);
      SmallerPowerDivides(a / 2, b / 2);
      DoubleMultiple(a / 2, b / 2);
    }
  }
}
