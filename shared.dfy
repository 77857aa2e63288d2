/** Greatest common divisor (src/logic/shared.ts, repeated verbatim in src/logic.ts). */
module Shared {

  function Abs(x: int): nat {
    if x < 0 then -x else x
  }

  /** `k` divides `n`; zero divides only zero. */
  predicate Divides(k: nat, n: int) {
    if k == 0 then n == 0 else n % k == 0
  }

  /**
   * Euclid's algorithm as the source writes it: both arguments are replaced by
   * their absolute values, swapped so that the first is the larger, and the
   * recursion stops when the smaller one is 0. The result type records that it
   * is never negative; the recursion terminates because the smaller argument
   * strictly decreases (`hi % lo < lo`).
   */
  function Gcd(a: int, b: int): (g: nat)
    decreases if Abs(a) < Abs(b) then Abs(a) else Abs(b)
  {
    var x, y := Abs(a), Abs(b);
    var hi: int, lo: int := if y > x then y else x, if y > x then x else y;
    if lo == 0 then hi else Gcd(lo, hi % lo)
  }

  lemma MultipleMod(k: nat, m: int)
    requires k > 0
    ensures (k * m) % k == 0 && (k * m) / k == m
  {
    var n := k * m;
    var q, r := n / k, n % k;
    assert n == k * q + r && 0 <= r < k;
    assert k * (m - q) == r;
    MulSign(k, m - q);
  }

  lemma MulSign(k: int, j: int)
    requires k > 0
    ensures j >= 1 ==> k * j >= k
    ensures j <= -1 ==> k * j <= -k
    ensures j <= 0 ==> k * j <= 0
  {
  }

  /** The sign of a product from the signs of its factors. */
  lemma ProductSign(x: int, y: int)
    ensures x * y > 0 <==> (x > 0 && y > 0) || (x < 0 && y < 0)
    ensures x * y == 0 <==> x == 0 || y == 0
  {
    if x > 0 {
      MulSign(x, y);
      MulSign(x, -y);
    } else if x < 0 {
      MulSign(-x, y);
      MulSign(-x, -y);
    }
  }

  lemma DividesWitness(k: nat, n: int)
    requires Divides(k, n)
    ensures n == k * (if k == 0 then 0 else n / k)
  {
  }

  lemma DividesOfMultiple(k: nat, m: int)
    ensures Divides(k, k * m)
  {
    if k > 0 {
      MultipleMod(k, m);
    }
  }

  /** A common divisor of `x` and `y` divides every `c * x + y`. */
  lemma DividesCombination(k: nat, x: int, y: int, c: int)
    requires Divides(k, x) && Divides(k, y)
    ensures Divides(k, c * x + y)
  {
    if k > 0 {
      var x', y' := x / k, y / k;
      DividesWitness(k, x);
      DividesWitness(k, y);
      assert c * x + y == k * (c * x' + y');
      DividesOfMultiple(k, c * x' + y');
    }
  }

  lemma DividesAbs(k: nat, n: int)
    ensures Divides(k, n) <==> Divides(k, Abs(n))
  {
    if k > 0 && n < 0 {
      if Divides(k, n) {
        DividesCombination(k, n, 0, -1);
      }
      if Divides(k, Abs(n)) {
        DividesCombination(k, Abs(n), 0, -1);
      }
    }
  }

  /** A positive multiple of `k` is at least `k`. */
  lemma DividesBound(k: nat, n: int)
    requires Divides(k, n) && n > 0
    ensures k <= n
  {
    DividesWitness(k, n);
    var m := n / k;
    assert n == k * m;
    MulSign(k, m);
  }

  /** gcd(a, 0) = |a|; in particular gcd(0, 0) = 0. */
  lemma GcdZeroRight(a: int)
    ensures Gcd(a, 0) == Abs(a) && Gcd(0, 0) == 0
  {
  }

  /** The result does not depend on the order or the signs of the arguments. */
  lemma GcdSymmetric(a: int, b: int)
    ensures Gcd(a, b) == Gcd(b, a)
    ensures Gcd(a, b) == Gcd(-a, b) == Gcd(a, -b)
  {
  }

  /** The result is 0 exactly when both arguments are 0. */
  lemma {:induction false} GcdZeroIff(a: int, b: int)
    ensures Gcd(a, b) == 0 <==> a == 0 && b == 0
    decreases if Abs(a) < Abs(b) then Abs(a) else Abs(b)
  {
    var x, y := Abs(a), Abs(b);
    var hi: int, lo: int := if y > x then y else x, if y > x then x else y;
    if lo != 0 {
      GcdZeroIff(lo, hi % lo);
    }
  }

  /** The result divides both arguments. */
  lemma {:induction false} GcdDivides(a: int, b: int)
    ensures Divides(Gcd(a, b), a) && Divides(Gcd(a, b), b)
    decreases if Abs(a) < Abs(b) then Abs(a) else Abs(b)
  {
    var x, y := Abs(a), Abs(b);
    var hi: int, lo: int := if y > x then y else x, if y > x then x else y;
    var g := Gcd(a, b);
    if lo == 0 {
      assert g == hi;
      DividesOfMultiple(g, 1);
      DividesOfMultiple(g, 0);
    } else {
      assert g == Gcd(lo, hi % lo);
      GcdDivides(lo, hi % lo);
      EuclidStep(g, hi, lo);
    }
    assert Divides(g, x) && Divides(g, y);
    DividesAbs(g, a);
    DividesAbs(g, b);
  }

  /** A divisor of `lo` and `hi % lo` divides `hi`. */
  lemma EuclidStep(g: nat, hi: int, lo: int)
    requires lo > 0 && Divides(g, lo) && Divides(g, hi % lo)
    ensures Divides(g, hi)
  {
    var c: int := hi / lo;
    var r: int := hi % lo;
    assert hi == c * lo + r;
    DividesCombination(g, lo, r, c);
  }

  /** Every common divisor of the arguments divides the result. */
  lemma {:induction false} GcdGreatest(a: int, b: int, k: nat)
    requires Divides(k, a) && Divides(k, b)
    ensures Divides(k, Gcd(a, b))
    decreases if Abs(a) < Abs(b) then Abs(a) else Abs(b)
  {
    var x, y := Abs(a), Abs(b);
    DividesAbs(k, a);
    DividesAbs(k, b);
    var hi: int, lo: int := if y > x then y else x, if y > x then x else y;
    assert Divides(k, hi) && Divides(k, lo);
    if lo != 0 {
      var c: int := 0 - hi / lo;
      assert hi % lo == c * lo + hi;
      DividesCombination(k, lo, hi, c);
      GcdGreatest(lo, hi % lo, k);
    }
  }
}
