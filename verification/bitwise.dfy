/** Bitwise exclusive-or of natural numbers, digit by binary digit. */
module Bitwise {
  import opened Bytes

  function Xor(a: nat, b: nat): nat
    decreases a + b
  {
    if a == 0 then b
    else if b == 0 then a
    else 2 * Xor(a / 2, b / 2) + (a + b) % 2
  }

  /** Binary digit i of s, digit 0 being the least significant. */
  predicate Digit(s: nat, i: nat)
    decreases i
  {
    if i == 0 then s % 2 == 1 else Digit(s / 2, i - 1)
  }

  function Pow2(n: nat): (p: nat)
    ensures p >= 1
  {
    if n == 0 then 1 else 2 * Pow2(n - 1)
  }

  lemma XorStep(a: nat, b: nat)
    ensures Xor(a, b) / 2 == Xor(a / 2, b / 2)
    ensures Xor(a, b) % 2 == (a + b) % 2
  {
  }

  lemma {:induction false} XorDigit(a: nat, b: nat, i: nat)
    ensures Digit(Xor(a, b), i) == (Digit(a, i) != Digit(b, i))
    decreases i
  {
    XorStep(a, b);
    if i > 0 {
      XorDigit(a / 2, b / 2, i - 1);
      assert Digit(Xor(a, b), i) == Digit(Xor(a / 2, b / 2), i - 1);
    } else {
      OddSum(a, b);
    }
  }

  lemma OddSum(a: nat, b: nat)
    ensures (a + b) % 2 == 1 <==> (a % 2 == 1) != (b % 2 == 1)
  {
  }

  lemma {:induction false} XorBound(a: nat, b: nat, n: nat)
    requires a < Pow2(n) && b < Pow2(n)
    ensures Xor(a, b) < Pow2(n)
    decreases n
  {
    XorStep(a, b);
    if n > 0 {
      XorBound(a / 2, b / 2, n - 1);
    }
  }

  lemma {:induction false} DigitAbove(s: nat, n: nat, i: nat)
    requires s < Pow2(n) && n <= i
    ensures !Digit(s, i)
    decreases i
  {
    if i > 0 {
      DigitAbove(s / 2, if n == 0 then 0 else n - 1, i - 1);
    }
  }

  lemma {:induction false} DigitsDetermine(a: nat, b: nat, n: nat)
    requires a < Pow2(n) && b < Pow2(n)
    requires forall i | 0 <= i < n :: Digit(a, i) == Digit(b, i)
    ensures a == b
    decreases n
  {
    if n > 0 {
      assert Digit(a, 0) == Digit(b, 0);
      forall i | 0 <= i < n - 1 ensures Digit(a / 2, i) == Digit(b / 2, i) {
        assert Digit(a, i + 1) == Digit(b, i + 1);
      }
      DigitsDetermine(a / 2, b / 2, n - 1);
    }
  }

  /** A number written as a low part of k digits and a high part. */
  lemma {:induction false} DigitSplit(low: nat, high: nat, k: nat, i: nat)
    requires low < Pow2(k)
    ensures Digit(low + Pow2(k) * high, i) == if i < k then Digit(low, i) else Digit(high, i - k)
    decreases k
  {
    if k > 0 {
      var whole := low + Pow2(k) * high;
      assert Pow2(k) * high == 2 * (Pow2(k - 1) * high);
      assert whole / 2 == low / 2 + Pow2(k - 1) * high;
      assert whole % 2 == low % 2;
      if i > 0 {
        DigitSplit(low / 2, high, k - 1, i - 1);
      }
    }
  }

  lemma XorDouble(s: nat, h: nat)
    requires h > 0
    ensures Xor(s, 2 * h) == 2 * Xor(s / 2, h) + s % 2
  {
    assert (2 * h) / 2 == h && (s + 2 * h) % 2 == s % 2;
  }

  /** Exclusive-or with a single digit adds or removes that digit. */
  lemma {:induction false} XorPower(s: nat, k: nat)
    ensures Digit(s, k) ==> s >= Pow2(k)
    ensures Xor(s, Pow2(k)) == if Digit(s, k) then s - Pow2(k) else s + Pow2(k)
    decreases k
  {
    if k > 0 {
      XorPower(s / 2, k - 1);
      XorDouble(s, Pow2(k - 1));
    } else {
      XorOne(s);
    }
  }

  lemma XorOne(s: nat)
    ensures Xor(s, 1) == if s % 2 == 1 then s - 1 else s + 1
  {
    assert Xor(s / 2, 0) == s / 2;
  }

  lemma Powers()
    ensures Pow2(8) == 256 && Pow2(16) == 0x1_0000 && Pow2(32) == U32
  {
    assert Pow2(8) == 256;
    assert Pow2(16) == 0x1_0000;
    assert Pow2(24) == 0x100_0000;
  }
}
