/**
 * Terms c·x^n (class Monomial of src/logic/monomial.ts, repeated verbatim in
 * src/logic.ts). A polynomial holds its terms as values of `Term`; the class
 * `Monomial` models the object and its `div`.
 */
module Monomials {
  import opened RealNumbers

  /** The value of a Monomial object: its coefficient and its degree. */
  datatype Term = Term(coef: Rat, degree: int)

  /**
   * What `div` computes: the degrees subtract, with no check against a
   * negative result, and the coefficients divide exactly.
   */
  function TermDiv(a: Term, b: Term): (r: Term)
    ensures r.degree == a.degree - b.degree
    ensures a.coef.den != 0 && b.coef.den != 0 && b.coef.num != 0 ==>
      Val(r.coef) == Val(a.coef) / Val(b.coef)
    ensures a.coef.den > 0 && b.coef.num != 0 ==> r.coef.den > 0
    ensures b.coef.den != 0 && b.coef.num != 0 ==> (r.coef.num == 0 <==> a.coef.num == 0)
  {
    Term(RatDiv(a.coef, b.coef), a.degree - b.degree)
  }

  class Monomial {
    var coefficient: RealNumber
    var degree: int

    constructor (coefficient: RealNumber, degree: int)
      ensures this.coefficient == coefficient && this.degree == degree
    {
      this.coefficient := coefficient;
      this.degree := degree;
    }

    function AsTerm(): Term
      reads this, coefficient
    {
      Term(coefficient.AsRat(), degree)
    }

    /** A deep copy: a new Monomial over a new RealNumber (lodash `cloneDeep`). */
    method Clone() returns (c: Monomial)
      ensures fresh(c) && fresh(c.coefficient)
      ensures c.AsTerm() == AsTerm()
    {
      var number := new RealNumber(coefficient.numerator, coefficient.denominator);
      c := new Monomial(number, degree);
    }

    /**
     * `div` works on this object when `inPlace` holds and returns nothing;
     * otherwise it works on a deep copy, returns the copy and leaves this
     * object and its coefficient alone. The argument is only read (it changes
     * only when it is this object or shares its coefficient).
     */
    method Div(monomial: Monomial, inPlace: bool) returns (r: Monomial?)
      modifies if inPlace then {this, coefficient} else {}
      ensures inPlace ==> r == null && coefficient == old(coefficient)
      ensures inPlace ==> AsTerm() == TermDiv(old(AsTerm()), old(monomial.AsTerm()))
      ensures !inPlace ==> r != null && fresh(r) && fresh(r.coefficient)
      ensures !inPlace ==> r.AsTerm() == TermDiv(AsTerm(), monomial.AsTerm())
      ensures monomial != this && monomial.coefficient != coefficient ==>
        monomial.AsTerm() == old(monomial.AsTerm())
    {
      var currMonomial: Monomial;
      if inPlace {
        currMonomial := this;
      } else {
        currMonomial := Clone();
      }
      currMonomial.degree := currMonomial.degree - monomial.degree;
      currMonomial.coefficient.Div(monomial.coefficient, true);
      if inPlace {
        r := null;
      } else {
        r := currMonomial;
      }
    }
  }
}
