/**
 * Exact fractions (class RealNumber of src/logic/realNumber.ts, repeated
 * verbatim in src/logic.ts). A fraction's value is a Dafny `real`, which is an
 * exact rational, so every claim about what an operation computes is stated
 * on `Val`.
 */
module RealNumbers {
  import opened Shared

  /** The pair numerator/denominator held by a RealNumber object. */
  datatype Rat = Rat(num: int, den: int)

  /** The value of a fraction; a zero denominator has no value and reads as 0. */
  function Val(r: Rat): real {
    if r.den == 0 then 0.0 else r.num as real / r.den as real
  }

  /** Numerator and denominator have no common factor other than 1. */
  predicate Lowest(r: Rat) {
    Gcd(r.num, r.den) == 1
  }

  /**
   * simplify: divide both parts by their gcd (nothing to do when it is 1). The
   * gcd is 0 only for 0/0, where the source divides 0 by 0 and gets NaN; the
   * model keeps 0/0 there.
   */
  function Simplify(n: int, d: int): (r: Rat)
    ensures d != 0 ==> Val(r) == Val(Rat(n, d))
    ensures d > 0 ==> r.den > 0
    ensures d == 0 ==> r.den == 0
    ensures (r.num > 0 <==> n > 0) && (r.num < 0 <==> n < 0)
    ensures n == 0 && d > 0 ==> r == Rat(0, 1)
  {
    var g := Gcd(n, d);
    if g <= 1 then
      GcdZeroIff(n, d);
      Rat(n, d)
    else
      SimplifyDivided(n, d);
      Rat(n / g, d / g)
  }

  /** The result is in lowest terms unless it is 0/0. */
  lemma SimplifyLowest(n: int, d: int)
    requires n != 0 || d != 0
    ensures Lowest(Simplify(n, d))
  {
    if Gcd(n, d) > 1 {
      SimplifyDivided(n, d);
    } else {
      GcdZeroIff(n, d);
    }
  }

  /** Dividing by the gcd: the parts are exact multiples and the quotients are coprime. */
  lemma SimplifyDivided(n: int, d: int)
    requires Gcd(n, d) > 1
    ensures var g := Gcd(n, d);
      && n == g * (n / g) && d == g * (d / g)
      && Gcd(n / g, d / g) == 1
      && (d > 0 ==> d / g > 0)
      && (n > 0 ==> n / g > 0) && (n < 0 ==> n / g < 0) && (n == 0 ==> n / g == 0)
      && (d != 0 ==> Val(Rat(n / g, d / g)) == Val(Rat(n, d)))
  {
    var g := Gcd(n, d);
    GcdDivides(n, d);
    DividesWitness(g, n);
    DividesWitness(g, d);
    var n', d' := n / g, d / g;
    ProductSign(g, n');
    ProductSign(g, d');
    QuotientsCoprime(n, d, g, n', d');
    if d != 0 {
      ScaledFraction(g, n', d');
    }
  }

  lemma ScaledFraction(g: int, n': int, d': int)
    requires g > 0 && d' != 0
    ensures Val(Rat(n', d')) == Val(Rat(g * n', g * d'))
  {
    ProductSign(g, d');
    assert ((g * n') as real) == (g as real) * (n' as real);
    assert ((g * d') as real) == (g as real) * (d' as real);
  }

  /** Dividing both parts by their gcd leaves no common factor. */
  lemma QuotientsCoprime(n: int, d: int, g: nat, n': int, d': int)
    requires g == Gcd(n, d) > 1 && n == g * n' && d == g * d'
    ensures Gcd(n', d') == 1
  {
    var g' := Gcd(n', d');
    GcdZeroIff(n, d);
    GcdZeroIff(n', d');
    ProductSign(g, n');
    ProductSign(g, d');
    assert g' != 0;
    GcdDivides(n', d');
    ScaleDivides(g, g', n');
    ScaleDivides(g, g', d');
    GcdGreatest(n, d, g * g');
    DividesBound(g * g', g);
    UnitFactor(g, g');
  }

  lemma UnitFactor(g: int, h: int)
    requires g > 0 && h >= 1 && g * h <= g
    ensures h == 1
  {
    assert g * (h - 1) == g * h - g;
    MulSign(g, h - 1);
  }

  /** If k divides m then g * k divides g * m. */
  lemma ScaleDivides(g: nat, k: nat, m: int)
    requires g > 0 && k > 0 && Divides(k, m)
    ensures Divides(g * k, g * m)
  {
    DividesWitness(k, m);
    var q := m / k;
    assert g * m == (g * k) * q;
    DividesOfMultiple(g * k, q);
  }

  /** Cross-multiplied sum, reduced (the `add` of the source). */
  function RatAdd(a: Rat, b: Rat): (r: Rat)
    ensures a.den != 0 && b.den != 0 ==> Val(r) == Val(a) + Val(b)
    ensures a.den > 0 && b.den > 0 ==> r.den > 0
    ensures a.den > 0 && b.den > 0 && Val(a) + Val(b) == 0.0 ==> r == Rat(0, 1)
  {
    var n, d := a.den * b.num + b.den * a.num, a.den * b.den;
    ProductSign(a.den, b.den);
    assert a.den != 0 && b.den != 0 ==> Val(Rat(n, d)) == Val(a) + Val(b);
    Simplify(n, d)
  }

  lemma RatAddLowest(a: Rat, b: Rat)
    requires a.den != 0 && b.den != 0
    ensures Lowest(RatAdd(a, b))
  {
    ProductSign(a.den, b.den);
    SimplifyLowest(a.den * b.num + b.den * a.num, a.den * b.den);
  }

  /** Product of numerators over product of denominators, reduced (`mul`). */
  function RatMul(a: Rat, b: Rat): (r: Rat)
    ensures Val(r) == Val(a) * Val(b)
    ensures a.den > 0 && b.den > 0 ==> r.den > 0
    ensures r.num == 0 <==> a.num == 0 || b.num == 0
  {
    var n, d := a.num * b.num, a.den * b.den;
    ProductSign(a.den, b.den);
    ProductSign(a.num, b.num);
    assert a.den != 0 && b.den != 0 ==> Val(Rat(n, d)) == Val(a) * Val(b);
    assert a.den == 0 || b.den == 0 ==> Val(a) * Val(b) == 0.0;
    Simplify(n, d)
  }

  lemma RatMulLowest(a: Rat, b: Rat)
    requires a.den != 0 && b.den != 0
    ensures Lowest(RatMul(a, b))
  {
    ProductSign(a.den, b.den);
    SimplifyLowest(a.num * b.num, a.den * b.den);
  }

  /**
   * The divisor `div` multiplies by: numerator and denominator swapped, and
   * both negated when the numerator is negative so that the sign stays on the
   * numerator. A numerator of 0 is not guarded and gives a zero denominator.
   */
  function Reciprocal(b: Rat): (r: Rat)
    ensures b.num != 0 && b.den != 0 ==> Val(r) == 1.0 / Val(b)
    ensures b.num != 0 ==> r.den > 0
    ensures b.num == 0 ==> r.den == 0
  {
    if b.num < 0 then Rat(b.den * -1, b.num * -1) else Rat(b.den, b.num)
  }

  /** The quotient `div` computes: a times the sign-adjusted reciprocal of b. */
  function RatDiv(a: Rat, b: Rat): (r: Rat)
    ensures a.den != 0 && b.den != 0 && b.num != 0 ==> Val(r) == Val(a) / Val(b)
    ensures a.den > 0 && b.num != 0 ==> r.den > 0
    ensures b.num == 0 ==> r.den == 0
    ensures b.den != 0 && b.num != 0 ==> (r.num == 0 <==> a.num == 0)
  {
    var recip := Reciprocal(b);
    if b.num == 0 then
      RatMul(a, recip)
    else
      assert b.den != 0 ==> Val(a) * Val(recip) == Val(a) / Val(b);
      RatMul(a, recip)
  }

  lemma RatDivLowest(a: Rat, b: Rat)
    requires a.den != 0 && b.num != 0
    ensures Lowest(RatDiv(a, b))
  {
    RatMulLowest(a, Reciprocal(b));
  }

  /** A value of 0 with a positive denominator is the fraction 0/1 once reduced. */
  lemma ZeroIsZeroOverOne(r: Rat)
    requires r.den > 0 && Lowest(r) && Val(r) == 0.0
    ensures r == Rat(0, 1)
  {
    assert r.num == 0;
    assert Gcd(0, r.den) == r.den;
  }

  /** With a positive denominator, the value is 0 exactly when the numerator is. */
  lemma ValZero(r: Rat)
    requires r.den > 0
    ensures Val(r) == 0.0 <==> r.num == 0
  {
  }

  /**
   * A RealNumber object. The source selects between "return a new value" and
   * "overwrite this" with an `inPlace` flag; the in-place forms return nothing.
   */
  class RealNumber {
    var numerator: int
    var denominator: int

    constructor (numerator: int, denominator: int)
      ensures this.numerator == numerator && this.denominator == denominator
    {
      this.numerator := numerator;
      this.denominator := denominator;
    }

    function AsRat(): Rat
      reads this
    {
      Rat(numerator, denominator)
    }

    method Add(numb: RealNumber, inPlace: bool) returns (r: RealNumber?)
      modifies if inPlace then {this} else {}
      ensures inPlace ==> r == null && AsRat() == RatAdd(old(AsRat()), old(numb.AsRat()))
      ensures !inPlace ==> r != null && fresh(r) && r.AsRat() == RatAdd(AsRat(), numb.AsRat())
    {
      var newNumerator := denominator * numb.numerator + numb.denominator * numerator;
      var newDenominator := denominator * numb.denominator;
      var s := Simplify(newNumerator, newDenominator);
      if inPlace {
        numerator, denominator := s.num, s.den;
        r := null;
      } else {
        r := new RealNumber(s.num, s.den);
      }
    }

    method Mul(numb: RealNumber, inPlace: bool) returns (r: RealNumber?)
      modifies if inPlace then {this} else {}
      ensures inPlace ==> r == null && AsRat() == RatMul(old(AsRat()), old(numb.AsRat()))
      ensures !inPlace ==> r != null && fresh(r) && r.AsRat() == RatMul(AsRat(), numb.AsRat())
    {
      var newNumerator := numerator * numb.numerator;
      var newDenominator := denominator * numb.denominator;
      var s := Simplify(newNumerator, newDenominator);
      if inPlace {
        numerator, denominator := s.num, s.den;
        r := null;
      } else {
        r := new RealNumber(s.num, s.den);
      }
    }

    /**
     * `div` builds the sign-adjusted reciprocal and hands it to `mul` with the
     * same flag, but never returns `mul`'s result: in place it overwrites this
     * object, otherwise the quotient is computed and dropped and nothing changes.
     */
    method Div(numb: RealNumber, inPlace: bool)
      modifies if inPlace then {this} else {}
      ensures inPlace ==> AsRat() == RatDiv(old(AsRat()), old(numb.AsRat()))
      ensures !inPlace ==> AsRat() == old(AsRat())
    {
      var newNumb: RealNumber;
      if numb.numerator < 0 {
        newNumb := new RealNumber(numb.denominator * -1, numb.numerator * -1);
      } else {
        newNumb := new RealNumber(numb.denominator, numb.numerator);
      }
      var dropped := Mul(newNumb, inPlace);
    }
  }
}
