/**
 * Polynomial long division (longDivision of src/logic/division.ts, and the
 * copy in src/logic.ts). Each step divides the leading term of the running
 * dividend by the leading term of the divisor, adds that term to the
 * quotient, multiplies the divisor by it and adds the negated product to the
 * running dividend; the step repeats while the remainder's degree is at least
 * the divisor's. `fill` selects the variant: true for src/logic/division.ts,
 * whose `add` fills gaps with zero terms; false for src/logic.ts, whose `add`
 * never does and whose trailing term is TrailingTermAsWritten.
 */
module Division {
  import opened Wrappers
  import opened RealNumbers
  import opened Monomials
  import opened TermLists
  import opened Polynomials

  /** -1·x^0: the product is multiplied by it before it is added. */
  const Inverse: Term := Term(Rat(-1, 1), 0)

  /** The record longDivision returns; each step pushes a product and a remainder. */
  datatype Process = Process(
    divisor: seq<Term>,
    dividend: seq<Term>,
    quotient: seq<Term>,
    remainder: seq<Term>,
    steps: seq<seq<Term>>)

  /** A leading term was undefined: the source throws a TypeError reading it. */
  datatype DivisionError = UndefinedLeadingTerm

  // ----- One step, as values -----------------------------------------------

  /** The quotient term of a step: the leading terms divided. */
  function StepQuotient(rem: seq<Term>, dvs: seq<Term>): Term
    requires LeadingTerm(rem).Some? && LeadingTerm(dvs).Some?
  {
    TermDiv(LeadingTerm(rem).value, LeadingTerm(dvs).value)
  }

  /** divisorxQuotientTT: the divisor times the quotient term. */
  function StepProduct(rem: seq<Term>, dvs: seq<Term>): seq<Term>
    requires LeadingTerm(rem).Some? && LeadingTerm(dvs).Some?
  {
    Scaled(dvs, StepQuotient(rem, dvs))
  }

  /** The new remainder: the running dividend plus the negated product. */
  function StepRemainder(rem: seq<Term>, dvs: seq<Term>, fill: bool): seq<Term>
    requires LeadingTerm(rem).Some? && LeadingTerm(dvs).Some?
  {
    AddAll(rem, Scaled(StepProduct(rem, dvs), Inverse), fill)
  }

  /** The running dividend step k starts from: the input, then the last remainder. */
  function Prev(dvd: seq<Term>, steps: seq<seq<Term>>, k: nat): seq<Term>
    requires 2 * k <= |steps|
  {
    if k == 0 then dvd else steps[2 * k - 1]
  }

  predicate StepAt(dvd: seq<Term>, dvs: seq<Term>, qs: seq<Term>, steps: seq<seq<Term>>, fill: bool, k: nat)
    requires k < |qs| && |steps| == 2 * |qs|
  {
    var prev := Prev(dvd, steps, k);
    && LeadingTerm(prev).Some? && LeadingTerm(dvs).Some?
    && qs[k] == StepQuotient(prev, dvs)
    && steps[2 * k] == StepProduct(prev, dvs)
    && steps[2 * k + 1] == StepRemainder(prev, dvs, fill)
  }

  /**
   * The recorded steps: step k adds quotient term qs[k], computed from the
   * remainder of step k - 1 (the dividend for k = 0), and pushes its product
   * and its remainder.
   */
  predicate Run(dvd: seq<Term>, dvs: seq<Term>, qs: seq<Term>, steps: seq<seq<Term>>, fill: bool) {
    && |steps| == 2 * |qs|
    && forall k :: 0 <= k < |qs| ==> StepAt(dvd, dvs, qs, steps, fill, k)
  }

  /** A divisor the loop can use: well formed and not zero. */
  predicate DivisorOk(dvs: seq<Term>) {
    WellFormed(dvs) && !AllZero(dvs)
  }

  /**
   * What holds between steps: the dividend is the divisor times the quotient
   * plus the remainder at every degree; the quotient is sorted, ends in a
   * non-zero term and is gap-free (filling) or has no zero term (monolith);
   * the next quotient term will be of smaller degree than the last one; a
   * constant divisor never lets a negative degree in.
   */
  ghost predicate Inv(dvd: seq<Term>, dvs: seq<Term>, qt: seq<Term>, rem: seq<Term>, fill: bool) {
    && StrictlyDecreasing(rem) && PositiveDens(rem)
    && StrictlyDecreasing(qt) && PositiveDens(qt)
    && (fill ==> Contiguous(qt))
    && (!fill ==> forall i :: 0 <= i < |qt| ==> qt[i].coef.num != 0)
    && (qt != [] ==> qt[|qt| - 1].coef.num != 0)
    && (qt != [] ==> AllZero(rem) || Degree(rem) < qt[|qt| - 1].degree + Degree(dvs))
    && (forall e :: Coeff(dvd, e) == Coeff(Product(dvs, qt), e) + Coeff(rem, e))
    && (Degree(dvs) == 0 ==> DegreesAtLeast(rem, 0))
  }

  // ----- Facts about one step -----------------------------------------------

  lemma DivisorFacts(dvs: seq<Term>)
    requires DivisorOk(dvs)
    ensures StrictlyDecreasing(dvs) && PositiveDens(dvs) && DegreesAtLeast(dvs, 0) && !AllZero(dvs)
  {
  }

  lemma StepRemainderIs(rem: seq<Term>, dvs: seq<Term>, fill: bool)
    requires LeadingTerm(rem).Some? && LeadingTerm(dvs).Some?
    ensures StepProduct(rem, dvs) == Scaled(dvs, StepQuotient(rem, dvs))
    ensures StepRemainder(rem, dvs, fill) == AddAll(rem, Scaled(Scaled(dvs, StepQuotient(rem, dvs)), Inverse), fill)
  {
  }

  /** The quotient term's degree is the difference of the degrees; it is a proper non-zero fraction. */
  lemma StepQuotientShape(rem: seq<Term>, dvs: seq<Term>)
    requires StrictlyDecreasing(rem) && PositiveDens(rem) && !AllZero(rem)
    requires DivisorOk(dvs)
    ensures LeadingTerm(rem).Some? && LeadingTerm(dvs).Some?
    ensures StepQuotient(rem, dvs).degree == Degree(rem) - Degree(dvs)
    ensures StepQuotient(rem, dvs).coef.den > 0 && StepQuotient(rem, dvs).coef.num != 0
  {
    hide RatDiv, RatMul, Simplify, Scaled, AddAll, Val, Coeff;
    LeadingSome(rem);
    LeadingSome(dvs);
    var a, b := LeadingTerm(rem).value, LeadingTerm(dvs).value;
    assert a.degree == Degree(rem) && a.coef.den > 0 by {
      DegreeCoeff(rem);
    }
    assert b.degree == Degree(dvs) && b.coef.den > 0 by {
      DegreeCoeff(dvs);
    }
    assert StepQuotient(rem, dvs) == TermDiv(a, b);
    assert a.coef.num != 0 && b.coef.num != 0;
  }

  /** The quotient term's coefficient is the ratio of the leading coefficients. */
  lemma StepQuotientValue(rem: seq<Term>, dvs: seq<Term>)
    requires StrictlyDecreasing(rem) && PositiveDens(rem) && !AllZero(rem)
    requires DivisorOk(dvs)
    ensures LeadingTerm(rem).Some? && LeadingTerm(dvs).Some?
    ensures Coeff(dvs, Degree(dvs)) != 0.0
    ensures Val(StepQuotient(rem, dvs).coef) == Coeff(rem, Degree(rem)) / Coeff(dvs, Degree(dvs))
  {
    hide RatDiv, RatMul, Simplify, Scaled, AddAll, Val, Coeff;
    LeadingSome(rem);
    LeadingSome(dvs);
    var a, b := LeadingTerm(rem).value, LeadingTerm(dvs).value;
    assert Coeff(rem, Degree(rem)) == Val(a.coef) && a.coef.den > 0 by {
      DegreeCoeff(rem);
    }
    assert Coeff(dvs, Degree(dvs)) == Val(b.coef) != 0.0 && b.coef.den > 0 by {
      DegreeCoeff(dvs);
    }
    assert StepQuotient(rem, dvs) == TermDiv(a, b);
    assert b.coef.num != 0;
  }

  lemma QuotientTimes(x: real, y: real, c: real)
    requires y != 0.0 && c == x / y
    ensures c * y == x
  {
  }

  /** Multiplying by -1·x^0 negates every coefficient. */
  lemma NegatedCoeff(p: seq<Term>, e: int)
    ensures Coeff(Scaled(p, Inverse), e) == -Coeff(p, e)
  {
    hide RatMul, RatDiv, Simplify;
    assert Val(Inverse.coef) == -1.0;
    hide Val, Coeff;
    ScaledCoeff(p, Inverse, -1.0, e);
    assert e - Inverse.degree == e;
  }

  /** The step's product at degree e: the quotient term's coefficient times the divisor's, shifted. */
  lemma StepProductCoeff(rem: seq<Term>, dvs: seq<Term>, e: int)
    requires LeadingTerm(rem).Some? && LeadingTerm(dvs).Some?
    ensures var q := StepQuotient(rem, dvs);
      Coeff(StepProduct(rem, dvs), e) == Val(q.coef) * Coeff(dvs, e - q.degree)
  {
    hide *;
    StepRemainderIs(rem, dvs, false);
    var q := StepQuotient(rem, dvs);
    ScaledCoeff(dvs, q, Val(q.coef), e);
  }

  /** The negated product keeps proper fractions. */
  lemma NegatedDens(dvs: seq<Term>, q: Term)
    requires PositiveDens(dvs) && q.coef.den > 0
    ensures PositiveDens(Scaled(Scaled(dvs, q), Inverse))
  {
    ScaledShape(dvs, q);
    ScaledShape(Scaled(dvs, q), Inverse);
  }

  /** The new remainder is the old one minus the quotient term times the divisor. */
  lemma StepRemainderCoeff(rem: seq<Term>, dvs: seq<Term>, fill: bool, e: int)
    requires StrictlyDecreasing(rem) && PositiveDens(rem) && !AllZero(rem)
    requires DivisorOk(dvs)
    ensures LeadingTerm(rem).Some? && LeadingTerm(dvs).Some?
    ensures Coeff(StepRemainder(rem, dvs, fill), e) == Coeff(rem, e) - Coeff(StepProduct(rem, dvs), e)
    ensures StrictlyDecreasing(StepRemainder(rem, dvs, fill)) && PositiveDens(StepRemainder(rem, dvs, fill))
  {
    hide *;
    StepQuotientShape(rem, dvs);
    DivisorFacts(dvs);
    StepRemainderIs(rem, dvs, fill);
    var q := StepQuotient(rem, dvs);
    var n := Scaled(Scaled(dvs, q), Inverse);
    NegatedDens(dvs, q);
    AddAllShape(rem, n, fill);
    AddAllCoeff(rem, n, fill, e);
    NegatedCoeff(Scaled(dvs, q), e);
  }

  /** At and above the old remainder's degree the new remainder has nothing. */
  lemma StepCancelsAt(rem: seq<Term>, dvs: seq<Term>, fill: bool, e: int)
    requires StrictlyDecreasing(rem) && PositiveDens(rem) && !AllZero(rem)
    requires DivisorOk(dvs) && e >= Degree(rem)
    ensures LeadingTerm(rem).Some? && LeadingTerm(dvs).Some?
    ensures Coeff(StepRemainder(rem, dvs, fill), e) == 0.0
  {
    hide *;
    StepQuotientShape(rem, dvs);
    StepQuotientValue(rem, dvs);
    DivisorFacts(dvs);
    var q := StepQuotient(rem, dvs);
    DegreeCoeff(rem);
    DegreeCoeff(dvs);
    StepRemainderCoeff(rem, dvs, fill, e);
    StepProductCoeff(rem, dvs, e);
    if e > Degree(rem) {
      assert e - q.degree > Degree(dvs);
    } else {
      assert e - q.degree == Degree(dvs);
      QuotientTimes(Coeff(rem, e), Coeff(dvs, e - q.degree), Val(q.coef));
    }
  }

  /** Nothing is left at or above the old remainder's degree. */
  lemma StepCancels(rem: seq<Term>, dvs: seq<Term>, fill: bool)
    requires StrictlyDecreasing(rem) && PositiveDens(rem) && !AllZero(rem)
    requires DivisorOk(dvs)
    ensures LeadingTerm(rem).Some? && LeadingTerm(dvs).Some?
    ensures var r := StepRemainder(rem, dvs, fill); AllZero(r) || Degree(r) < Degree(rem)
  {
    hide *;
    StepRemainderCoeff(rem, dvs, fill, 0);
    var r := StepRemainder(rem, dvs, fill);
    forall e | e >= Degree(rem)
      ensures Coeff(r, e) == 0.0
    {
      StepCancelsAt(rem, dvs, fill, e);
    }
    DegreeBelow(r, Degree(rem));
  }

  /** Under a constant divisor no remainder gets a negative degree. */
  lemma StepDegrees(rem: seq<Term>, dvs: seq<Term>, fill: bool)
    requires StrictlyDecreasing(rem) && PositiveDens(rem) && !AllZero(rem)
    requires DivisorOk(dvs) && Degree(dvs) == 0 && DegreesAtLeast(rem, 0)
    ensures LeadingTerm(rem).Some? && LeadingTerm(dvs).Some?
    ensures DegreesAtLeast(StepRemainder(rem, dvs, fill), 0)
  {
    hide RatDiv, RatMul, Simplify, Coeff, Val, AddAll;
    StepQuotientShape(rem, dvs);
    var q := StepQuotient(rem, dvs);
    var p := StepProduct(rem, dvs);
    var n := Scaled(p, Inverse);
    LeadingSome(rem);
    assert q.degree >= 0;
    ScaledShape(dvs, q);
    ScaledShape(p, Inverse);
    assert DegreesAtLeast(n, 0);
    AddAllDegrees(rem, n, fill, 0);
  }

  // ----- The quotient ----------------------------------------------------

  /** The zero terms `add` puts between the quotient and a new, lower term. */
  function Fillers(qt: seq<Term>, q: Term, fill: bool): (r: seq<Term>)
    ensures AllZero(r) && PositiveDens(r)
    ensures !fill || qt == [] ==> r == []
  {
    if fill && qt != [] then Gap(qt[|qt| - 1].degree, q.degree) else []
  }

  lemma FillersIs(qt: seq<Term>, q: Term, fill: bool)
    ensures Fillers(qt, q, fill) == if fill && qt != [] then Gap(qt[|qt| - 1].degree, q.degree) else []
  {
  }

  lemma FilledOne(q: Term)
    ensures Filled([q]) == [q]
  {
  }

  /** A degree not yet in the list: `add` inserts the term at the end, then fills when asked. */
  lemma AppendNoMatch(qt: seq<Term>, q: Term, fill: bool)
    requires forall i :: 0 <= i < |qt| ==> qt[i].degree > q.degree
    ensures AddTerm(qt, q, fill) == if fill then Filled(qt + [q]) else qt + [q]
  {
    assert FindIndex(qt, q.degree).None?;
    InsertedBetween(qt, [], q);
    assert qt + [] == qt && qt + [q] + [] == qt + [q];
  }

  /** Filling a gap-free list with one more, lower term adds only the gap before it. */
  lemma FilledSnoc(qt: seq<Term>, q: Term)
    requires Contiguous(qt) && qt != []
    ensures Filled(qt + [q]) == qt + Gap(qt[|qt| - 1].degree, q.degree) + [q]
  {
    var s := qt + [q];
    FilledUnfold(s);
    assert s[..|s| - 1] == qt;
    FilledContiguous(qt);
  }

  /** A term of lower degree than the whole quotient goes at its end, after any fillers. */
  lemma QuotientAppend(qt: seq<Term>, q: Term, fill: bool)
    requires StrictlyDecreasing(qt) && (fill ==> Contiguous(qt))
    requires forall i :: 0 <= i < |qt| ==> qt[i].degree > q.degree
    ensures AddTerm(qt, q, fill) == qt + Fillers(qt, q, fill) + [q]
    ensures AddTerm(qt, q, fill) == if fill then Filled(qt + [q]) else qt + [q]
  {
    hide *;
    AppendNoMatch(qt, q, fill);
    FillersIs(qt, q, fill);
    if fill && qt != [] {
      FilledSnoc(qt, q);
    } else {
      FilledOne(q);
      assert qt + [] + [q] == qt + [q];
      assert qt == [] ==> qt + [q] == [q];
    }
  }

  /** The quotient after a step stays sorted, gap-free or zero-free, with proper fractions. */
  lemma QuotientShape(qt: seq<Term>, q: Term, fill: bool)
    requires StrictlyDecreasing(qt) && PositiveDens(qt) && (fill ==> Contiguous(qt))
    requires !fill ==> forall i :: 0 <= i < |qt| ==> qt[i].coef.num != 0
    requires forall i :: 0 <= i < |qt| ==> qt[i].degree > q.degree
    requires q.coef.num != 0 && q.coef.den > 0
    ensures var r := AddTerm(qt, q, fill);
      && StrictlyDecreasing(r) && PositiveDens(r) && (fill ==> Contiguous(r))
      && (!fill ==> forall i :: 0 <= i < |r| ==> r[i].coef.num != 0)
  {
    QuotientAppend(qt, q, fill);
    AddTermDens(qt, q, fill);
    SortedJoin(qt, q, []);
    assert qt + [q] + [] == qt + [q];
    hide AddTerm;
    if fill && qt != [] {
      FilledShape(qt + [q]);
      ContiguousSorted(Filled(qt + [q]));
    }
  }

  /** Zero fillers do not show among the non-zero terms. */
  lemma EndsNonZero(qt: seq<Term>, z: seq<Term>, q: Term)
    requires AllZero(z) && q.coef.num != 0
    ensures NonZeroTerms(qt + z + [q]) == NonZeroTerms(qt) + [q]
  {
    NonZeroSkip(qt, z, [q]);
    assert NonZeroTerms([q]) == [q];
  }

  /** A list ending in a non-zero term trails with it. */
  lemma EndsTrailing(r: seq<Term>, q: Term)
    requires r != [] && r[|r| - 1] == q && q.coef.num != 0
    ensures TrailingTerm(r) == Some(q)
  {
    assert LastNonZero(r) == |r| - 1;
  }

  /** Without zero terms the monolith's trailing term is the last term. */
  lemma EndsAsWritten(qt: seq<Term>, q: Term)
    requires forall i :: 0 <= i < |qt| ==> qt[i].coef.num != 0
    requires q.coef.num != 0
    ensures TrailingTermAsWritten(qt + [q]) == Some(q)
  {
    var r := qt + [q];
    assert forall i :: 0 <= i < |r| ==> r[i].coef.num != 0;
    NonZeroAll(r);
  }

  /** The quotient after a step ends in the new term, which is its last non-zero term. */
  lemma QuotientEnds(qt: seq<Term>, q: Term, fill: bool)
    requires StrictlyDecreasing(qt) && (fill ==> Contiguous(qt))
    requires !fill ==> forall i :: 0 <= i < |qt| ==> qt[i].coef.num != 0
    requires forall i :: 0 <= i < |qt| ==> qt[i].degree > q.degree
    requires q.coef.num != 0
    ensures var r := AddTerm(qt, q, fill);
      && r != [] && r[0] == (if qt == [] then q else qt[0]) && r[|r| - 1] == q
      && NonZeroTerms(r) == NonZeroTerms(qt) + [q]
      && TrailingTerm(r) == Some(q)
      && (!fill ==> TrailingTermAsWritten(r) == Some(q))
  {
    hide *;
    QuotientAppend(qt, q, fill);
    var z := Fillers(qt, q, fill);
    var r := qt + z + [q];
    assert r[|r| - 1] == q;
    assert qt == [] ==> r == [q];
    EndsNonZero(qt, z, q);
    EndsTrailing(r, q);
    if !fill {
      EndsAsWritten(qt, q);
    }
  }

  /** One more quotient term adds that term times the divisor to the product. */
  lemma ProductStep(dvs: seq<Term>, qt: seq<Term>, z: seq<Term>, q: Term, d: int)
    requires PositiveDens(dvs) && AllZero(z) && q.coef.den > 0
    ensures Coeff(Product(dvs, qt + z + [q]), d) == Coeff(Product(dvs, qt), d) + Coeff(Scaled(dvs, q), d)
  {
    hide *;
    ScaledCoeff(dvs, q, Val(q.coef), d);
    ProductSnoc(dvs, qt + z, q, Val(q.coef), d);
    ProductAppend(dvs, qt, z);
    CoeffAppend(Product(dvs, qt), Product(dvs, z), d);
    ProductOfZeros(dvs, z, d);
  }

  // ----- The invariant across steps ---------------------------------------

  lemma InvStart(dvd: seq<Term>, dvs: seq<Term>, fill: bool)
    requires WellFormed(dvd)
    ensures Inv(dvd, dvs, [], dvd, fill)
  {
    assert Product(dvs, []) == [];
  }

  /** Inv taken apart. */
  lemma InvParts(dvd: seq<Term>, dvs: seq<Term>, qt: seq<Term>, rem: seq<Term>, fill: bool)
    requires Inv(dvd, dvs, qt, rem, fill)
    ensures StrictlyDecreasing(rem) && PositiveDens(rem)
    ensures StrictlyDecreasing(qt) && PositiveDens(qt)
    ensures fill ==> Contiguous(qt)
    ensures !fill ==> forall i :: 0 <= i < |qt| ==> qt[i].coef.num != 0
    ensures qt != [] ==> qt[|qt| - 1].coef.num != 0
    ensures qt != [] ==> AllZero(rem) || Degree(rem) < qt[|qt| - 1].degree + Degree(dvs)
    ensures forall e :: Coeff(dvd, e) == Coeff(Product(dvs, qt), e) + Coeff(rem, e)
    ensures Degree(dvs) == 0 ==> DegreesAtLeast(rem, 0)
  {
  }

  /** Inv put together. */
  lemma InvJoin(dvd: seq<Term>, dvs: seq<Term>, qt: seq<Term>, rem: seq<Term>, fill: bool)
    requires StrictlyDecreasing(rem) && PositiveDens(rem)
    requires StrictlyDecreasing(qt) && PositiveDens(qt)
    requires fill ==> Contiguous(qt)
    requires !fill ==> forall i :: 0 <= i < |qt| ==> qt[i].coef.num != 0
    requires qt != [] ==> qt[|qt| - 1].coef.num != 0
    requires qt != [] ==> AllZero(rem) || Degree(rem) < qt[|qt| - 1].degree + Degree(dvs)
    requires forall e :: Coeff(dvd, e) == Coeff(Product(dvs, qt), e) + Coeff(rem, e)
    requires Degree(dvs) == 0 ==> DegreesAtLeast(rem, 0)
    ensures Inv(dvd, dvs, qt, rem, fill)
  {
  }

  /** Every term of a sorted list is above a bound its last term is above. */
  lemma AboveLast(qt: seq<Term>, lo: int)
    requires StrictlyDecreasing(qt) && (qt != [] ==> qt[|qt| - 1].degree > lo)
    ensures forall i :: 0 <= i < |qt| ==> qt[i].degree > lo
  {
    forall i | 0 <= i < |qt|
      ensures qt[i].degree > lo
    {
      assert i == |qt| - 1 || qt[i].degree > qt[|qt| - 1].degree;
    }
  }

  /** At one degree: the step moves the quotient term's multiple of the divisor from the remainder to the product. */
  lemma StepIdentityAt(dvd: seq<Term>, dvs: seq<Term>, qt: seq<Term>, rem: seq<Term>, fill: bool, e: int)
    requires StrictlyDecreasing(rem) && PositiveDens(rem) && !AllZero(rem) && DivisorOk(dvs)
    requires StrictlyDecreasing(qt) && (fill ==> Contiguous(qt))
    requires Coeff(dvd, e) == Coeff(Product(dvs, qt), e) + Coeff(rem, e)
    requires LeadingTerm(rem).Some? && LeadingTerm(dvs).Some?
    requires forall i :: 0 <= i < |qt| ==> qt[i].degree > StepQuotient(rem, dvs).degree
    ensures Coeff(dvd, e) ==
      Coeff(Product(dvs, AddTerm(qt, StepQuotient(rem, dvs), fill)), e) + Coeff(StepRemainder(rem, dvs, fill), e)
  {
    hide *;
    StepQuotientShape(rem, dvs);
    DivisorFacts(dvs);
    StepRemainderIs(rem, dvs, fill);
    var q := StepQuotient(rem, dvs);
    QuotientAppend(qt, q, fill);
    ProductStep(dvs, qt, Fillers(qt, q, fill), q, e);
    StepRemainderCoeff(rem, dvs, fill, e);
  }


  /** The step keeps the dividend equal to divisor times quotient plus remainder. */
  lemma StepIdentity(dvd: seq<Term>, dvs: seq<Term>, qt: seq<Term>, rem: seq<Term>, fill: bool)
    requires StrictlyDecreasing(rem) && PositiveDens(rem) && !AllZero(rem) && DivisorOk(dvs)
    requires StrictlyDecreasing(qt) && (fill ==> Contiguous(qt))
    requires forall e :: Coeff(dvd, e) == Coeff(Product(dvs, qt), e) + Coeff(rem, e)
    requires LeadingTerm(rem).Some? && LeadingTerm(dvs).Some?
    requires forall i :: 0 <= i < |qt| ==> qt[i].degree > StepQuotient(rem, dvs).degree
    ensures var r, rem' := AddTerm(qt, StepQuotient(rem, dvs), fill), StepRemainder(rem, dvs, fill);
      forall e :: Coeff(dvd, e) == Coeff(Product(dvs, r), e) + Coeff(rem', e)
  {
    hide *;
    forall e
      ensures Coeff(dvd, e) ==
        Coeff(Product(dvs, AddTerm(qt, StepQuotient(rem, dvs), fill)), e) + Coeff(StepRemainder(rem, dvs, fill), e)
    {
      StepIdentityAt(dvd, dvs, qt, rem, fill, e);
    }
  }

  /** One step keeps the invariant and moves the quotient on by the step's term. */
  lemma StepKeepsInv(dvd: seq<Term>, dvs: seq<Term>, qt: seq<Term>, rem: seq<Term>, fill: bool)
    requires Inv(dvd, dvs, qt, rem, fill) && DivisorOk(dvs) && !AllZero(rem)
    ensures LeadingTerm(rem).Some? && LeadingTerm(dvs).Some?
    ensures var q := StepQuotient(rem, dvs);
      var r := AddTerm(qt, q, fill);
      && Inv(dvd, dvs, r, StepRemainder(rem, dvs, fill), fill)
      && r[0] == (if qt == [] then q else qt[0])
      && NonZeroTerms(r) == NonZeroTerms(qt) + [q]
      && (if fill then TrailingTerm(r) else TrailingTermAsWritten(r)) == Some(q)
      && (AllZero(StepRemainder(rem, dvs, fill)) || Degree(StepRemainder(rem, dvs, fill)) < Degree(rem))
  {
    hide *;
    InvParts(dvd, dvs, qt, rem, fill);
    StepQuotientShape(rem, dvs);
    var q := StepQuotient(rem, dvs);
    var rem' := StepRemainder(rem, dvs, fill);
    AboveLast(qt, q.degree);
    QuotientShape(qt, q, fill);
    QuotientEnds(qt, q, fill);
    var r := AddTerm(qt, q, fill);
    StepRemainderCoeff(rem, dvs, fill, 0);
    StepCancels(rem, dvs, fill);
    StepIdentity(dvd, dvs, qt, rem, fill);
    if Degree(dvs) == 0 {
      StepDegrees(rem, dvs, fill);
    }
    InvJoin(dvd, dvs, r, rem', fill);
  }

  // ----- The recorded steps -------------------------------------------------

  /** Recording one more step extends the run. */
  lemma RunExtend(dvd: seq<Term>, dvs: seq<Term>, qs: seq<Term>, steps: seq<seq<Term>>, fill: bool)
    requires Run(dvd, dvs, qs, steps, fill)
    requires LeadingTerm(Prev(dvd, steps, |qs|)).Some? && LeadingTerm(dvs).Some?
    ensures var prev := Prev(dvd, steps, |qs|);
      Run(dvd, dvs, qs + [StepQuotient(prev, dvs)],
        steps + [StepProduct(prev, dvs), StepRemainder(prev, dvs, fill)], fill)
  {
    hide StepAt, StepQuotient, StepProduct, StepRemainder, LeadingTerm;
    var prev := Prev(dvd, steps, |qs|);
    var q, a, b := StepQuotient(prev, dvs), StepProduct(prev, dvs), StepRemainder(prev, dvs, fill);
    forall k | 0 <= k < |qs| + 1
      ensures StepAt(dvd, dvs, qs + [q], steps + [a, b], fill, k)
    {
      if k < |qs| {
        StepAtKept(dvd, dvs, qs, steps, fill, q, a, b, k);
      } else {
        StepAtNew(dvd, dvs, qs, steps, fill);
      }
    }
  }

  lemma StepAtKept(dvd: seq<Term>, dvs: seq<Term>, qs: seq<Term>, steps: seq<seq<Term>>, fill: bool,
                   q: Term, a: seq<Term>, b: seq<Term>, k: nat)
    requires Run(dvd, dvs, qs, steps, fill) && k < |qs|
    ensures StepAt(dvd, dvs, qs + [q], steps + [a, b], fill, k)
  {
    hide StepQuotient, StepProduct, StepRemainder, LeadingTerm;
    assert StepAt(dvd, dvs, qs, steps, fill, k);
    assert Prev(dvd, steps + [a, b], k) == Prev(dvd, steps, k);
  }

  lemma StepAtNew(dvd: seq<Term>, dvs: seq<Term>, qs: seq<Term>, steps: seq<seq<Term>>, fill: bool)
    requires |steps| == 2 * |qs|
    requires LeadingTerm(Prev(dvd, steps, |qs|)).Some? && LeadingTerm(dvs).Some?
    ensures var prev := Prev(dvd, steps, |qs|);
      StepAt(dvd, dvs, qs + [StepQuotient(prev, dvs)],
        steps + [StepProduct(prev, dvs), StepRemainder(prev, dvs, fill)], fill, |qs|)
  {
    hide StepQuotient, StepProduct, StepRemainder, LeadingTerm;
    var prev := Prev(dvd, steps, |qs|);
    var steps' := steps + [StepProduct(prev, dvs), StepRemainder(prev, dvs, fill)];
    assert Prev(dvd, steps', |qs|) == prev;
  }

  // ----- The division as the source runs it ---------------------------------

  /** What a finished division promises about the record it returns. */
  ghost predicate Divided(dvd: seq<Term>, dvs: seq<Term>, p: Process, fill: bool) {
    && p.dividend == dvd && p.divisor == dvs
    && (forall e :: Coeff(dvd, e) == Coeff(Product(dvs, p.quotient), e) + Coeff(p.remainder, e))
    && (AllZero(p.remainder) || Degree(p.remainder) < Degree(dvs))
    && StrictlyDecreasing(p.quotient) && PositiveDens(p.quotient)
    && (fill ==> Contiguous(p.quotient))
    && (!fill ==> forall i :: 0 <= i < |p.quotient| ==> p.quotient[i].coef.num != 0)
    && LeadingTerm(dvd).Some? && LeadingTerm(dvs).Some?
    && p.quotient != [] && p.quotient[0] == StepQuotient(dvd, dvs)
    && Run(dvd, dvs, NonZeroTerms(p.quotient), p.steps, fill)
    && |p.steps| >= 2 && p.steps[|p.steps| - 1] == p.remainder
    && Continued(dvs, p.steps)
  }

  /** The loop went on after every recorded remainder but the last. */
  predicate Continued(dvs: seq<Term>, steps: seq<seq<Term>>) {
    forall i :: 0 <= i < |steps| - 2 && i % 2 == 1 ==> Degree(steps[i]) >= Degree(dvs)
  }

  lemma ContinuedStart(dvs: seq<Term>, p: seq<Term>, r: seq<Term>)
    ensures Continued(dvs, [p, r])
  {
  }

  lemma ContinuedExtend(dvs: seq<Term>, steps: seq<seq<Term>>, p: seq<Term>, r: seq<Term>)
    requires Continued(dvs, steps) && |steps| >= 2 && |steps| % 2 == 0
    requires Degree(steps[|steps| - 1]) >= Degree(dvs)
    ensures Continued(dvs, steps + [p, r])
  {
    var s := steps + [p, r];
    forall i | 0 <= i < |s| - 2 && i % 2 == 1
      ensures Degree(s[i]) >= Degree(dvs)
    {
      assert s[i] == steps[i];
    }
  }

  /** Divided taken apart. */
  lemma DividedParts(dvd: seq<Term>, dvs: seq<Term>, p: Process, fill: bool)
    requires Divided(dvd, dvs, p, fill)
    ensures p.dividend == dvd && p.divisor == dvs
    ensures forall e :: Coeff(dvd, e) == Coeff(Product(dvs, p.quotient), e) + Coeff(p.remainder, e)
    ensures AllZero(p.remainder) || Degree(p.remainder) < Degree(dvs)
    ensures StrictlyDecreasing(p.quotient) && PositiveDens(p.quotient)
    ensures fill ==> Contiguous(p.quotient)
    ensures !fill ==> forall i :: 0 <= i < |p.quotient| ==> p.quotient[i].coef.num != 0
    ensures LeadingTerm(dvd).Some? && LeadingTerm(dvs).Some?
    ensures p.quotient != [] && p.quotient[0] == StepQuotient(dvd, dvs)
    ensures Run(dvd, dvs, NonZeroTerms(p.quotient), p.steps, fill)
    ensures |p.steps| >= 2 && p.steps[|p.steps| - 1] == p.remainder
    ensures Continued(dvs, p.steps)
  {
  }

  /** Step k of a run, taken apart. */
  lemma RunAt(dvd: seq<Term>, dvs: seq<Term>, qs: seq<Term>, steps: seq<seq<Term>>, fill: bool, k: nat)
    requires Run(dvd, dvs, qs, steps, fill) && k < |qs|
    ensures |steps| == 2 * |qs|
    ensures Prev(dvd, steps, k) == if k == 0 then dvd else steps[2 * k - 1]
    ensures var prev := Prev(dvd, steps, k);
      && LeadingTerm(prev).Some? && LeadingTerm(dvs).Some?
      && qs[k] == StepQuotient(prev, dvs)
      && steps[2 * k] == StepProduct(prev, dvs)
      && steps[2 * k + 1] == StepRemainder(prev, dvs, fill)
  {
    assert StepAt(dvd, dvs, qs, steps, fill, k);
  }

  lemma ContinuedAt(dvs: seq<Term>, steps: seq<seq<Term>>, i: int)
    requires Continued(dvs, steps) && 0 <= i < |steps| - 2 && i % 2 == 1
    ensures Degree(steps[i]) >= Degree(dvs)
  {
  }

  /** How far the loop still is from its end: nothing left once the remainder is below the divisor. */
  function Measure(rem: seq<Term>, dvs: seq<Term>): nat {
    if AllZero(rem) || Degree(rem) < Degree(dvs) then 0 else Degree(rem) - Degree(dvs) + 1
  }

  lemma MeasureDrops(rem: seq<Term>, rem': seq<Term>, dvs: seq<Term>)
    requires !AllZero(rem) && Degree(rem) >= Degree(dvs)
    requires AllZero(rem') || Degree(rem') < Degree(rem)
    ensures Measure(rem', dvs) < Measure(rem, dvs)
  {
  }

  /** A list with no negative degree has no negative degree of its own. */
  lemma DegreeNotNegative(ts: seq<Term>)
    ensures DegreesAtLeast(ts, 0) ==> Degree(ts) >= 0
  {
  }

  /** What the inputs bring: a non-negative divisor degree, and a usable divisor unless it is zero. */
  lemma InputFacts(dvd: seq<Term>, dvs: seq<Term>)
    requires WellFormed(dvd) && WellFormed(dvs)
    ensures Degree(dvs) >= 0 && (!AllZero(dvs) ==> DivisorOk(dvs))
  {
    DegreeNotNegative(dvs);
  }

  lemma NonZeroNone()
    ensures NonZeroTerms([]) == []
  {
  }

  /** Divided put together. */
  lemma DividedJoin(dvd: seq<Term>, dvs: seq<Term>, p: Process, fill: bool)
    requires p.dividend == dvd && p.divisor == dvs
    requires forall e :: Coeff(dvd, e) == Coeff(Product(dvs, p.quotient), e) + Coeff(p.remainder, e)
    requires AllZero(p.remainder) || Degree(p.remainder) < Degree(dvs)
    requires StrictlyDecreasing(p.quotient) && PositiveDens(p.quotient)
    requires fill ==> Contiguous(p.quotient)
    requires !fill ==> forall i :: 0 <= i < |p.quotient| ==> p.quotient[i].coef.num != 0
    requires LeadingTerm(dvd).Some? && LeadingTerm(dvs).Some?
    requires p.quotient != [] && p.quotient[0] == StepQuotient(dvd, dvs)
    requires Run(dvd, dvs, NonZeroTerms(p.quotient), p.steps, fill)
    requires |p.steps| >= 2 && p.steps[|p.steps| - 1] == p.remainder
    requires Continued(dvs, p.steps)
    ensures Divided(dvd, dvs, p, fill)
  {
  }

  /** Without a leading term the degree reads as 0. */
  lemma NoLeadingDegree(ts: seq<Term>)
    requires LeadingTerm(ts).None?
    ensures AllZero(ts) && Degree(ts) == 0
  {
    LeadingSome(ts);
  }

  lemma RunFirst(dvd: seq<Term>, dvs: seq<Term>, fill: bool)
    requires LeadingTerm(dvd).Some? && LeadingTerm(dvs).Some?
    ensures Run(dvd, dvs, [StepQuotient(dvd, dvs)], [StepProduct(dvd, dvs), StepRemainder(dvd, dvs, fill)], fill)
  {
    hide *;
    RunEmpty(dvd, dvs, fill);
    RunExtend(dvd, dvs, [], [], fill);
    var q, p, r := StepQuotient(dvd, dvs), StepProduct(dvd, dvs), StepRemainder(dvd, dvs, fill);
    assert [] + [q] == [q] && [] + [p, r] == [p, r];
  }

  lemma RunEmpty(dvd: seq<Term>, dvs: seq<Term>, fill: bool)
    ensures Run(dvd, dvs, [], [], fill) && Prev(dvd, [], 0) == dvd
  {
  }

  /** The last recorded remainder is where the next step starts. */
  lemma RunEven(dvd: seq<Term>, dvs: seq<Term>, qs: seq<Term>, steps: seq<seq<Term>>, fill: bool)
    requires Run(dvd, dvs, qs, steps, fill)
    ensures |steps| % 2 == 0
  {
  }

  lemma RunPrev(dvd: seq<Term>, dvs: seq<Term>, qs: seq<Term>, steps: seq<seq<Term>>, fill: bool)
    requires Run(dvd, dvs, qs, steps, fill) && |steps| >= 2
    ensures Prev(dvd, steps, |qs|) == steps[|steps| - 1]
  {
  }

  /**
   * One step: dividendLT / divisorLT goes into the quotient in place, the
   * quotient's trailing term multiplies the divisor, and the product times
   * -1 is added to the running dividend, giving a new remainder.
   */
  method Step(dividend: Polynomial, divisor: Polynomial, divisorLT: Term, quotient: Polynomial,
              fill: bool, ghost dvd: seq<Term>)
    returns (product: Polynomial, remainder: Polynomial)
    requires quotient != dividend && quotient != divisor
    requires DivisorOk(divisor.terms) && LeadingTerm(divisor.terms) == Some(divisorLT)
    requires LeadingTerm(dividend.terms).Some?
    requires Inv(dvd, divisor.terms, quotient.terms, dividend.terms, fill)
    modifies quotient
    ensures fresh(product) && fresh(remainder)
    ensures product.terms == StepProduct(dividend.terms, divisor.terms)
    ensures remainder.terms == StepRemainder(dividend.terms, divisor.terms, fill)
    ensures var q := StepQuotient(dividend.terms, divisor.terms);
      && quotient.terms == AddTerm(old(quotient.terms), q, fill)
      && quotient.terms[0] == (if old(quotient.terms) == [] then q else old(quotient.terms)[0])
      && NonZeroTerms(quotient.terms) == NonZeroTerms(old(quotient.terms)) + [q]
    ensures Inv(dvd, divisor.terms, quotient.terms, remainder.terms, fill)
    ensures AllZero(remainder.terms) || Degree(remainder.terms) < Degree(dividend.terms)
  {
    hide *;
    LeadingSome(dividend.terms);
    StepKeepsInv(dvd, divisor.terms, quotient.terms, dividend.terms, fill);
    InvParts(dvd, divisor.terms, quotient.terms, dividend.terms, fill);
    StepRemainderIs(dividend.terms, divisor.terms, fill);
    var dividendLT := LeadingTerm(dividend.terms).value;
    assert TermDiv(dividendLT, divisorLT) == StepQuotient(dividend.terms, divisor.terms) by {
      StepQuotientIs(dividend.terms, divisor.terms);
    }
    var dropped := quotient.Add(TermDiv(dividendLT, divisorLT), true, fill);
    var quotientTT := if fill then TrailingTerm(quotient.terms) else TrailingTermAsWritten(quotient.terms);
    var p := divisor.Mul(quotientTT.value, false);
    var negated := p.Mul(Inverse, false);
    var r := dividend.AddPol(negated, false, fill);
    product, remainder := p, r;
  }

  lemma StepQuotientIs(rem: seq<Term>, dvs: seq<Term>)
    requires LeadingTerm(rem).Some? && LeadingTerm(dvs).Some?
    ensures StepQuotient(rem, dvs) == TermDiv(LeadingTerm(rem).value, LeadingTerm(dvs).value)
  {
  }

  /**
   * longDivision: one unconditional step, then more while the remainder's
   * degree is at least the divisor's. A leading term that does not exist
   * (a zero dividend or divisor, or a zero remainder under a constant
   * divisor, which the loop never leaves otherwise) is a failure.
   */
  method LongDivision(dividend: Polynomial, divisor: Polynomial, fill: bool)
    returns (r: Result<Process, DivisionError>)
    requires WellFormed(dividend.terms) && WellFormed(divisor.terms)
    ensures r.Failure? <==> AllZero(dividend.terms) || AllZero(divisor.terms) || Degree(divisor.terms) == 0
    ensures r.Success? ==> Divided(dividend.terms, divisor.terms, r.value, fill)
  {
    hide *;
    ghost var dvd, dvs := dividend.terms, divisor.terms;
    InputFacts(dvd, dvs);
    LeadingSome(dvd);
    LeadingSome(dvs);
    if LeadingTerm(dividend.terms).None? || LeadingTerm(divisor.terms).None? {
      return Failure(UndefinedLeadingTerm);
    }
    var divisorLT := LeadingTerm(divisor.terms).value;
    var quotient := new Polynomial([]);
    InvStart(dvd, dvs, fill);
    RunFirst(dvd, dvs, fill);
    NonZeroNone();
    var product, remainder := Step(dividend, divisor, divisorLT, quotient, fill, dvd);
    // the source rebinds `dividend` to a copy of the remainder
    var current := remainder.Copy();
    var steps := [product.terms, remainder.terms];
    ContinuedStart(dvs, product.terms, remainder.terms);
    assert NonZeroTerms(quotient.terms) == [StepQuotient(dvd, dvs)] by {
      assert [] + [StepQuotient(dvd, dvs)] == [StepQuotient(dvd, dvs)];
    }
    while Degree(remainder.terms) >= Degree(divisor.terms)
      invariant fresh(quotient) && quotient != current
      invariant dividend.terms == dvd && divisor.terms == dvs
      invariant current.terms == remainder.terms
      invariant Inv(dvd, dvs, quotient.terms, remainder.terms, fill)
      invariant Run(dvd, dvs, NonZeroTerms(quotient.terms), steps, fill)
      invariant |steps| >= 2 && steps[|steps| - 1] == remainder.terms
      invariant Continued(dvs, steps)
      invariant quotient.terms != [] && quotient.terms[0] == StepQuotient(dvd, dvs)
      decreases Measure(remainder.terms, dvs)
    {
      if LeadingTerm(current.terms).None? {
        NoLeadingDegree(current.terms);
        return Failure(UndefinedLeadingTerm);
      }
      ghost var qs, rem := NonZeroTerms(quotient.terms), remainder.terms;
      RunPrev(dvd, dvs, qs, steps, fill);
      RunExtend(dvd, dvs, qs, steps, fill);
      RunEven(dvd, dvs, qs, steps, fill);
      LeadingSome(rem);
      product, remainder := Step(current, divisor, divisorLT, quotient, fill, dvd);
      MeasureDrops(rem, remainder.terms, dvs);
      ContinuedExtend(dvs, steps, product.terms, remainder.terms);
      current := remainder.Copy();
      steps := steps + [product.terms, remainder.terms];
    }
    InvParts(dvd, dvs, quotient.terms, remainder.terms, fill);
    DegreeNotNegative(remainder.terms);
    var process := Process(divisor.terms, dividend.terms, quotient.terms, remainder.terms, steps);
    DividedJoin(dvd, dvs, process, fill);
    return Success(process);
  }
}
