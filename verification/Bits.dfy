/** Powers of two and exclusive or on naturals. */
module Bits {

  function Min(a: nat, b: nat): nat {
    if a < b then a else b
  }

  function Pow2(k: nat): (p: nat)
    ensures p >= 1
  {
    if k == 0 then 1 else 2 * Pow2(k - 1)
  }

  lemma DoubleProduct(a: nat, b: nat)
    ensures 2 * (a * b) == (2 * a) * b
  {
  }

  lemma {:induction false} Pow2Add(j: nat, k: nat)
    ensures Pow2(j + k) == Pow2(j) * Pow2(k)
  {
    if j > 0 {
      Pow2Add(j - 1, k);
      DoubleProduct(Pow2(j - 1), Pow2(k));
    }
  }

  lemma {:induction false} Pow2Monotone(j: nat, k: nat)
    requires j <= k
    ensures Pow2(j) <= Pow2(k)
  {
    if j < k {
      Pow2Monotone(j, k - 1);
    }
  }

  /** Exclusive or, digit by digit in base two. */
  function Xor(a: nat, b: nat): nat
    decreases a + b
  {
    if a == 0 && b == 0 then 0
    else 2 * Xor(a / 2, b / 2) + (if a % 2 == b % 2 then 0 else 1)
  }

  lemma {:induction false} XorBound(a: nat, b: nat, k: nat)
    requires a < Pow2(k) && b < Pow2(k)
    ensures Xor(a, b) < Pow2(k)
  {
    if k > 0 {
      XorBound(a / 2, b / 2, k - 1);
    }
  }

  /** The digit above every digit of `b` is kept. */
  lemma {:induction false} XorTopDigit(a: nat, b: nat, k: nat)
    requires Pow2(k) <= a < Pow2(k + 1) && b < Pow2(k)
    ensures Pow2(k) <= Xor(a, b) < Pow2(k + 1)
  {
    if k > 0 {
      XorTopDigit(a / 2, b / 2, k - 1);
    } else {
      assert a == 1 && b == 0;
      assert Xor(0, 0) == 0;
    }
  }

  lemma {:induction false} XorZero(a: nat)
    ensures Xor(a, 0) == a
    decreases a
  {
    if a > 0 {
      XorZero(a / 2);
    }
  }

  /** Exclusive or with the same operand twice gives back the first. */
  lemma {:induction false} XorCancel(a: nat, b: nat)
    ensures Xor(Xor(a, b), b) == a
    decreases a + b
  {
    if a > 0 || b > 0 {
      XorCancel(a / 2, b / 2);
      var x := Xor(a, b);
      assert x / 2 == Xor(a / 2, b / 2);
      if x == 0 && b == 0 {
        assert Xor(0, 0) == 0;
      }
    }
  }

  /** Binary digit `i` of `a`. */
  predicate Digit(a: nat, i: nat) {
    if i == 0 then a % 2 == 1 else Digit(a / 2, i - 1)
  }

  lemma {:induction false} DigitIs(a: nat, i: nat)
    ensures Digit(a, i) <==> (a / Pow2(i)) % 2 == 1
  {
    if i > 0 {
      DigitIs(a / 2, i - 1);
      HalfFirst(a, Pow2(i - 1));
    }
  }

  lemma HalfFirst(a: nat, m: nat)
    requires m > 0
    ensures a / 2 / m == a / (2 * m)
  {
    var q := a / 2 / m;
    var r := a / 2 - q * m;
    assert a == 2 * m * q + (2 * r + a % 2) by {
      DoubleProduct(q, m);
    }
    QuotientIs(a, 2 * m, q, 2 * r + a % 2);
  }

  lemma QuotientIs(x: nat, m: nat, q: nat, r: nat)
    requires m > 0 && x == m * q + r && r < m
    ensures x / m == q
  {
    QuotientUnique(x, m, q, r);
    assert m * (x / m - q) == 0;
  }

  /** `Xor` is the bitwise operation: each digit of the result is set exactly when the operands differ there. */
  lemma {:induction false} XorDigits(a: nat, b: nat, i: nat)
    ensures Digit(Xor(a, b), i) <==> Digit(a, i) != Digit(b, i)
  {
    var x := Xor(a, b);
    assert x / 2 == Xor(a / 2, b / 2);
    if i > 0 {
      XorDigits(a / 2, b / 2, i - 1);
    }
  }

  /** No map size that is a power of two fits 32 bits and equals 97. */
  lemma MapSizes(k: nat)
    requires k <= 31
    ensures Pow2(k) <= 0x8000_0000 && Pow2(k) != 97
    ensures k >= 7 ==> Pow2(k) >= 128
    ensures k <= 6 ==> Pow2(k) <= 64
  {
    assert Pow2(4) == 16;
    Pow2Add(4, 4);
    Pow2Add(8, 8);
    Pow2Add(8, 7);
    Pow2Add(16, 15);
    Pow2Monotone(k, 31);
    if k >= 7 {
      Pow2Add(4, 3);
      Pow2Monotone(7, k);
    } else {
      Pow2Add(3, 3);
      Pow2Monotone(k, 6);
    }
  }

  /** The remainder of unsigned division, by repeated subtraction. */
  function Rem(n: nat, m: nat): (r: nat)
    requires m > 0
    ensures r < m
    ensures n < m ==> r == n
  {
    if n < m then n else Rem(n - m, m)
  }

  lemma AtLeastOnce(m: nat, t: int)
    requires m > 0
    ensures t >= 1 ==> m * t >= m
    ensures t <= -1 ==> m * t + m <= 0
  {
  }

  lemma QuotientUnique(x: nat, m: nat, q: int, r: nat)
    requires m > 0 && x == m * q + r && r < m
    ensures x % m == r
  {
    var d, s := x / m, x % m;
    assert m * (d - q) == r - s;
    AtLeastOnce(m, d - q);
  }

  lemma {:induction false} RemIsRemainder(n: nat, m: nat)
    requires m > 0
    ensures Rem(n, m) == n % m
  {
    if n >= m {
      RemIsRemainder(n - m, m);
      QuotientUnique(n, m, (n - m) / m + 1, (n - m) % m);
    } else {
      QuotientUnique(n, m, 0, n);
    }
  }

  /** The first multiple of `m` above `n`. */
  lemma {:induction false} NextMultiple(n: nat, m: nat)
    requires m > 0
    ensures Rem(n + (m - Rem(n, m)), m) == 0
  {
    if n >= m {
      NextMultiple(n - m, m);
    } else {
      assert Rem(m, m) == Rem(0, m);
    }
  }
}
