/**
 Powers of two, the bit trick that recognises them, and rounding up to a multiple.
 */
module Arithmetic {

  function Pow2(k: nat): (p: nat)
    ensures p >= 1
  {
    if k == 0 then 1 else 2 * Pow2(k - 1)
  }

  ghost predicate PowerOfTwo(n: nat) {
    exists k: nat :: n == Pow2(k)
  }

  /** Bitwise and of two natural numbers. */
  function BitAnd(a: nat, b: nat): nat
    decreases a
  {
    if a == 0 then 0 else 2 * BitAnd(a / 2, b / 2) + (a % 2) * (b % 2)
  }

  /** The C test `value != 0 && (value & (value - 1)) == 0`. */
  predicate IsPowerOfTwo(value: nat) {
    value != 0 && BitAnd(value, value - 1) == 0
  }

  lemma {:induction false} BitAndSelf(a: nat)
    ensures BitAnd(a, a) == a
  {
    if a != 0 {
      BitAndSelf(a / 2);
      assert (a % 2) * (a % 2) == a % 2 by {
        if a % 2 == 1 {
          assert 1 * 1 == 1;
        }
      }
    }
  }

  lemma {:induction false} IsPowerOfTwoExact(value: nat)
    ensures IsPowerOfTwo(value) <==> PowerOfTwo(value)
    decreases value
  {
    if value == 0 {
    } else if value == 1 {
      assert value == Pow2(0);
    } else if value % 2 == 0 {
      IsPowerOfTwoExact(value / 2);
      assert (value - 1) / 2 == value / 2 - 1;
      if k: nat :| value == Pow2(k) {
        assert value / 2 == Pow2(k - 1);
      }
      if k: nat :| value / 2 == Pow2(k) {
        assert value == Pow2(k + 1);
      }
    } else {
      assert (value - 1) / 2 == value / 2;
      BitAndSelf(value / 2);
      if k: nat :| value == Pow2(k) {
        OddPower(k);
      }
    }
  }

  lemma OddPower(k: nat)
    ensures Pow2(k) % 2 == 1 ==> Pow2(k) == 1
  {
  }

  ghost predicate Divides(a: nat, n: int)
    requires a > 0
  {
    n % a == 0
  }

  lemma DividesIsMultiple(a: nat, n: nat)
    requires a > 0
    ensures Divides(a, n) <==> exists q: nat :: n == q * a
  {
    if Divides(a, n) {
      assert n == (n / a) * a;
    }
    if q: nat :| n == q * a {
      MultipleDivides(a, q);
    }
  }

  lemma {:induction false} MultipleDivides(a: nat, q: nat)
    requires a > 0
    ensures Divides(a, q * a)
  {
    if q > 0 {
      MultipleDivides(a, q - 1);
      assert q * a == (q - 1) * a + a;
      AddMultiple((q - 1) * a, a);
    }
  }

  lemma AddMultiple(n: nat, a: nat)
    requires a > 0
    ensures (n + a) % a == n % a
  {
    var q, r := n / a, n % a;
    assert n + a == a * (q + 1) + r;
    QuotientUnique(n + a, a, q + 1, r);
  }

  lemma {:induction false} MultiplyOrder(a: nat, x: int, y: int)
    ensures x <= y ==> a * x <= a * y
  {
    if a > 0 {
      MultiplyOrder(a - 1, x, y);
      assert a * x == (a - 1) * x + x && a * y == (a - 1) * y + y;
    }
  }

  lemma QuotientUnique(n: nat, a: nat, q: nat, r: nat)
    requires a > 0 && r < a && n == a * q + r
    ensures n / a == q && n % a == r
  {
    MultiplyOrder(a, n / a + 1, q);
    MultiplyOrder(a, q + 1, n / a);
    assert a * (n / a + 1) == a * (n / a) + a;
    assert a * (q + 1) == a * q + a;
  }

  lemma SumDivides(a: nat, m: nat, n: nat)
    requires a > 0 && Divides(a, m) && Divides(a, n)
    ensures Divides(a, m + n)
  {
    DividesIsMultiple(a, m);
    DividesIsMultiple(a, n);
    var p: nat :| m == p * a;
    var q: nat :| n == q * a;
    assert m + n == (p + q) * a;
    MultipleDivides(a, p + q);
  }

  lemma ProductDivides(a: nat, m: nat, n: nat)
    requires a > 0 && Divides(a, m)
    ensures Divides(a, n * m)
  {
    DividesIsMultiple(a, m);
    var p: nat :| m == p * a;
    assert n * m == (n * p) * a;
    MultipleDivides(a, n * p);
  }

  lemma DividesTransitive(a: nat, b: nat, n: nat)
    requires a > 0 && b > 0 && Divides(a, b) && Divides(b, n)
    ensures Divides(a, n)
  {
    DividesIsMultiple(b, n);
    var q: nat :| n == q * b;
    ProductDivides(a, b, q);
  }

  /** The smaller of two powers of two divides the larger. */
  lemma {:induction false} PowersDivide(a: nat, b: nat)
    requires PowerOfTwo(a) && PowerOfTwo(b) && a <= b
    ensures Divides(a, b)
    decreases b
  {
    if a == b {
      MultipleDivides(a, 1);
    } else {
      var i: nat :| a == Pow2(i);
      var j: nat :| b == Pow2(j);
      assert j > 0 && b == 2 * Pow2(j - 1);
      if Pow2(j - 1) < a {
        Pow2Gap(j - 1, i);
        assert false;
      }
      PowersDivide(a, Pow2(j - 1));
      ProductDivides(a, Pow2(j - 1), 2);
    }
  }

  lemma {:induction false} Pow2Gap(i: nat, j: nat)
    requires Pow2(i) < Pow2(j)
    ensures 2 * Pow2(i) <= Pow2(j)
    decreases i
  {
    assert j > 0;
    if i > 0 {
      Pow2Gap(i - 1, j - 1);
    }
  }

  /** The padding the code adds: zero when aligned, otherwise up to the next multiple. */
  function Padding(n: nat, a: nat): nat
    requires a > 0
  {
    if n % a == 0 then 0 else a - n % a
  }

  function RoundUp(n: nat, a: nat): nat
    requires a > 0
  {
    n + Padding(n, a)
  }

  /** Rounding up gives a multiple that is not smaller. */
  lemma RoundUpDivides(n: nat, a: nat)
    requires a > 0
    ensures Divides(a, RoundUp(n, a)) && n <= RoundUp(n, a) < n + a
  {
    if n % a != 0 {
      assert RoundUp(n, a) == a * (n / a) + a == a * (n / a + 1) + 0;
      QuotientUnique(RoundUp(n, a), a, n / a + 1, 0);
    }
  }

  /** No smaller multiple will do. */
  lemma RoundUpLeast(n: nat, a: nat, m: nat)
    requires a > 0 && Divides(a, m) && n <= m
    ensures RoundUp(n, a) <= m
  {
    if n % a != 0 {
      MultiplyOrder(a, m / a, n / a);
      MultiplyOrder(a, n / a + 1, m / a);
      assert a * (n / a + 1) == a * (n / a) + a;
    }
  }
}
