/**
 * The term list a Polynomial holds (its `terms` array), as a sequence of
 * `Term` values, and the operations of src/logic/polynomial.ts on it as
 * functions. The class in polynomial.dfy runs the loops of the source and
 * proves that they compute these functions.
 *
 * The meaning of a term list is `Coeff(ts, d)`: the sum of the values of its
 * terms of degree d, the coefficient of x^d of the polynomial it stands for.
 */
module TermLists {
  import opened Wrappers
  import opened RealNumbers
  import opened Monomials

  // ----- Shapes of term lists --------------------------------------------

  /** Degrees strictly decrease from the first term to the last. */
  predicate StrictlyDecreasing(ts: seq<Term>) {
    forall i, j :: 0 <= i < j < |ts| ==> ts[i].degree > ts[j].degree
  }

  /** Each degree is one less than the one before: no degree is skipped. */
  predicate Contiguous(ts: seq<Term>) {
    forall i :: 0 < i < |ts| ==> ts[i - 1].degree == ts[i].degree + 1
  }

  predicate PositiveDens(ts: seq<Term>) {
    forall i :: 0 <= i < |ts| ==> ts[i].coef.den > 0
  }

  predicate DegreesAtLeast(ts: seq<Term>, lo: int) {
    forall i :: 0 <= i < |ts| ==> ts[i].degree >= lo
  }

  /** What the parser produces: sorted, proper fractions, no negative exponent. */
  predicate WellFormed(ts: seq<Term>) {
    StrictlyDecreasing(ts) && PositiveDens(ts) && DegreesAtLeast(ts, 0)
  }

  predicate AllZero(ts: seq<Term>) {
    forall i :: 0 <= i < |ts| ==> ts[i].coef.num == 0
  }

  /** The filler term 0/1 · x^d. */
  function Zero(d: int): Term {
    Term(Rat(0, 1), d)
  }

  // ----- Meaning of a term list ----------------------------------------

  function Single(t: Term, d: int): real {
    if t.degree == d then Val(t.coef) else 0.0
  }

  /** The coefficient of x^d: the sum of the terms of degree d. */
  function Coeff(ts: seq<Term>, d: int): real {
    if ts == [] then 0.0 else Single(ts[0], d) + Coeff(ts[1..], d)
  }

  lemma {:induction false} CoeffAppend(a: seq<Term>, b: seq<Term>, d: int)
    ensures Coeff(a + b, d) == Coeff(a, d) + Coeff(b, d)
  {
    if a == [] {
      assert a + b == b;
    } else {
      assert (a + b)[1..] == a[1..] + b;
      CoeffAppend(a[1..], b, d);
    }
  }

  /** Terms of another degree, and zero terms, contribute nothing to x^d. */
  lemma {:induction false} CoeffVanishes(ts: seq<Term>, d: int)
    requires forall i :: 0 <= i < |ts| ==> ts[i].degree != d || ts[i].coef.num == 0
    ensures Coeff(ts, d) == 0.0
  {
    if ts != [] {
      CoeffVanishes(ts[1..], d);
    }
  }

  /** In a sorted list the coefficient of a present degree is that one term. */
  lemma {:induction false} CoeffAt(ts: seq<Term>, i: int)
    requires StrictlyDecreasing(ts) && 0 <= i < |ts|
    ensures Coeff(ts, ts[i].degree) == Val(ts[i].coef)
  {
    if i == 0 {
      CoeffVanishes(ts[1..], ts[0].degree);
    } else {
      CoeffAt(ts[1..], i - 1);
    }
  }

  // ----- Queries (getNonZeroTerms, getTerm, getLeadingTerm, ...) -------

  /** `terms.find(t => t.degree === degree)`, as an index. */
  function FindIndex(ts: seq<Term>, d: int): (r: Option<nat>)
    ensures r.Some? ==> r.value < |ts| && ts[r.value].degree == d
    ensures r.Some? ==> forall j :: 0 <= j < r.value ==> ts[j].degree != d
    ensures r.None? <==> forall j :: 0 <= j < |ts| ==> ts[j].degree != d
  {
    if ts == [] then None
    else if ts[0].degree == d then Some(0)
    else match FindIndex(ts[1..], d)
      case Some(k) => Some(k + 1)
      case None => None
  }

  /** getTerm: the first term of the given degree, zero or not. */
  function FindTerm(ts: seq<Term>, d: int): (r: Option<Term>)
    ensures r.Some? <==> exists i :: 0 <= i < |ts| && ts[i].degree == d
    ensures r.Some? ==> r.value in ts && r.value.degree == d
  {
    match FindIndex(ts, d)
    case Some(k) => Some(ts[k])
    case None => None
  }

  /** On a sorted list getTerm gives the coefficient of x^d; a missing degree is 0. */
  lemma FindTermCoeff(ts: seq<Term>, d: int)
    requires StrictlyDecreasing(ts)
    ensures Coeff(ts, d) == match FindTerm(ts, d) case Some(t) => Val(t.coef) case None => 0.0
  {
    match FindIndex(ts, d)
    case Some(k) => CoeffAt(ts, k);
    case None => CoeffVanishes(ts, d);
  }

  /** getNonZeroTerms: the terms whose numerator is not 0, in order. */
  function NonZeroTerms(ts: seq<Term>): (r: seq<Term>)
    ensures |r| <= |ts|
    ensures r == [] <==> AllZero(ts)
  {
    if ts == [] then []
    else
      var rest := NonZeroTerms(ts[1..]);
      assert forall i :: 0 < i < |ts| ==> ts[i] == ts[1..][i - 1];
      if ts[0].coef.num != 0 then [ts[0]] + rest else rest
  }

  /** The filter keeps exactly the non-zero terms, and drops one only if it is zero. */
  lemma {:induction false} NonZeroMembers(ts: seq<Term>)
    ensures forall t :: t in NonZeroTerms(ts) <==> t in ts && t.coef.num != 0
    ensures |NonZeroTerms(ts)| == |ts| <==> forall i :: 0 <= i < |ts| ==> ts[i].coef.num != 0
  {
    NonZeroIn(ts);
    NonZeroLength(ts);
  }

  lemma NonZeroUnfold(ts: seq<Term>)
    ensures ts == [] ==> NonZeroTerms(ts) == []
    ensures ts != [] && ts[0].coef.num != 0 ==> NonZeroTerms(ts) == [ts[0]] + NonZeroTerms(ts[1..])
    ensures ts != [] && ts[0].coef.num == 0 ==> NonZeroTerms(ts) == NonZeroTerms(ts[1..])
  {
  }

  lemma {:induction false} NonZeroIn(ts: seq<Term>)
    ensures forall t :: t in NonZeroTerms(ts) <==> t in ts && t.coef.num != 0
  {
    hide NonZeroTerms;
    NonZeroUnfold(ts);
    if ts != [] {
      NonZeroIn(ts[1..]);
      assert ts == [ts[0]] + ts[1..];
    }
  }

  lemma {:induction false} NonZeroLength(ts: seq<Term>)
    ensures |NonZeroTerms(ts)| == |ts| <==> forall i :: 0 <= i < |ts| ==> ts[i].coef.num != 0
  {
    hide NonZeroTerms;
    NonZeroUnfold(ts);
    if ts != [] {
      NonZeroLength(ts[1..]);
      assert forall i :: 0 < i < |ts| ==> ts[i] == ts[1..][i - 1];
    }
  }

  lemma {:induction false} NonZeroAppend(a: seq<Term>, b: seq<Term>)
    ensures NonZeroTerms(a + b) == NonZeroTerms(a) + NonZeroTerms(b)
  {
    if a != [] {
      assert (a + b)[1..] == a[1..] + b;
      NonZeroAppend(a[1..], b);
    } else {
      assert a + b == b;
    }
  }

  /** Index of the first term with a non-zero numerator (|ts| if there is none). */
  function FirstNonZero(ts: seq<Term>): (k: nat)
    ensures k <= |ts|
    ensures forall j :: 0 <= j < k ==> ts[j].coef.num == 0
    ensures k < |ts| ==> ts[k].coef.num != 0
  {
    if ts == [] then 0
    else if ts[0].coef.num != 0 then 0
    else 1 + FirstNonZero(ts[1..])
  }

  /** Index of the last term with a non-zero numerator (-1 if there is none). */
  function LastNonZero(ts: seq<Term>): (k: int)
    ensures -1 <= k < |ts|
    ensures forall j :: k < j < |ts| ==> ts[j].coef.num == 0
    ensures k >= 0 ==> ts[k].coef.num != 0
  {
    if ts == [] then -1
    else if ts[|ts| - 1].coef.num != 0 then |ts| - 1
    else LastNonZero(ts[..|ts| - 1])
  }

  lemma {:induction false} NonZeroHead(ts: seq<Term>)
    requires NonZeroTerms(ts) != []
    ensures FirstNonZero(ts) < |ts| && NonZeroTerms(ts)[0] == ts[FirstNonZero(ts)]
  {
    if ts[0].coef.num == 0 {
      NonZeroHead(ts[1..]);
    }
  }

  lemma {:induction false} NonZeroLast(ts: seq<Term>)
    requires NonZeroTerms(ts) != []
    ensures var nz := NonZeroTerms(ts);
      LastNonZero(ts) >= 0 && nz[|nz| - 1] == ts[LastNonZero(ts)]
  {
    var init, last := ts[..|ts| - 1], ts[|ts| - 1];
    assert ts == init + [last];
    NonZeroAppend(init, [last]);
    if last.coef.num == 0 {
      assert NonZeroTerms([last]) == [];
      assert NonZeroTerms(ts) == NonZeroTerms(init);
      NonZeroLast(init);
      assert ts[LastNonZero(init)] == init[LastNonZero(init)];
    } else {
      assert NonZeroTerms([last]) == [last];
    }
  }

  /** getLeadingTerm: the first non-zero term; nothing when all are zero. */
  function LeadingTerm(ts: seq<Term>): (r: Option<Term>)
    ensures r == if FirstNonZero(ts) < |ts| then Some(ts[FirstNonZero(ts)]) else None
  {
    var nz := NonZeroTerms(ts);
    if nz == [] then None
    else
      NonZeroHead(ts);
      Some(nz[0])
  }

  /** getTrailingTerm of src/logic/polynomial.ts: the last non-zero term. */
  function TrailingTerm(ts: seq<Term>): (r: Option<Term>)
    ensures r == if LastNonZero(ts) >= 0 then Some(ts[LastNonZero(ts)]) else None
  {
    var nz := NonZeroTerms(ts);
    if nz == [] then None
    else
      NonZeroLast(ts);
      Some(nz[|nz| - 1])
  }

  /**
   * getTrailingTerm of src/logic.ts: the list of non-zero terms indexed with
   * the length of the whole list minus one, which is past its end (undefined)
   * as soon as one term is zero.
   */
  function TrailingTermAsWritten(ts: seq<Term>): (r: Option<Term>)
    ensures r.Some? ==> r.value in NonZeroTerms(ts)
  {
    var nz := NonZeroTerms(ts);
    if 0 <= |ts| - 1 < |nz| then Some(nz[|ts| - 1]) else None
  }

  /** A list with no zero term is its own list of non-zero terms. */
  lemma {:induction false} NonZeroAll(ts: seq<Term>)
    requires forall i :: 0 <= i < |ts| ==> ts[i].coef.num != 0
    ensures NonZeroTerms(ts) == ts
  {
    if ts != [] {
      assert forall i :: 0 < i < |ts| ==> ts[i] == ts[1..][i - 1];
      NonZeroAll(ts[1..]);
      assert ts == [ts[0]] + ts[1..];
    }
  }

  /**
   * The monolith's trailing term agrees with the last non-zero term exactly
   * when no term is zero or every term is.
   */
  lemma TrailingAsWritten(ts: seq<Term>)
    ensures TrailingTermAsWritten(ts) == TrailingTerm(ts) <==>
      AllZero(ts) || forall i :: 0 <= i < |ts| ==> ts[i].coef.num != 0
  {
    hide *;
    NonZeroMembers(ts);
    TrailingUnfold(ts);
    if forall i :: 0 <= i < |ts| ==> ts[i].coef.num != 0 {
      NonZeroAll(ts);
    }
  }

  lemma TrailingUnfold(ts: seq<Term>)
    ensures var nz := NonZeroTerms(ts);
      && TrailingTermAsWritten(ts) == (if 0 <= |ts| - 1 < |nz| then Some(nz[|ts| - 1]) else None)
      && TrailingTerm(ts) == (if nz == [] then None else Some(nz[|nz| - 1]))
  {
  }

  /**
   * x^2 + 0x + 1: one term is zero, so the list of non-zero terms has two
   * entries and the monolith indexes it at 2, past its end; the last non-zero
   * term is 1.
   */
  lemma TrailingAsWrittenMisses()
    ensures var ts := [Term(Rat(1, 1), 2), Term(Rat(0, 1), 1), Term(Rat(1, 1), 0)];
      TrailingTermAsWritten(ts) == None && TrailingTerm(ts) == Some(Term(Rat(1, 1), 0))
  {
    var ts := [Term(Rat(1, 1), 2), Term(Rat(0, 1), 1), Term(Rat(1, 1), 0)];
    assert NonZeroTerms(ts[2..]) == [ts[2]];
    assert NonZeroTerms(ts[1..]) == [ts[2]] by { assert ts[1..][1..] == ts[2..]; }
    assert NonZeroTerms(ts) == [ts[0], ts[2]];
  }

  /** There is a leading term exactly when some term is not zero. */
  lemma LeadingSome(ts: seq<Term>)
    ensures LeadingTerm(ts).Some? <==> !AllZero(ts)
    ensures LeadingTerm(ts).Some? ==> LeadingTerm(ts).value in ts
  {
  }

  /** getDegree: the degree of the leading term, 0 when every term is zero. */
  function Degree(ts: seq<Term>): (r: int)
    ensures r == if FirstNonZero(ts) < |ts| then ts[FirstNonZero(ts)].degree else 0
  {
    var nz := NonZeroTerms(ts);
    if nz == [] then 0
    else
      NonZeroHead(ts);
      nz[0].degree
  }

  /**
   * On a sorted list with proper fractions the degree is the largest power
   * with a non-zero coefficient, and the leading term carries that coefficient.
   */
  lemma DegreeCoeff(ts: seq<Term>)
    requires StrictlyDecreasing(ts) && PositiveDens(ts) && !AllZero(ts)
    ensures LeadingTerm(ts).Some? && LeadingTerm(ts).value.degree == Degree(ts)
    ensures Coeff(ts, Degree(ts)) == Val(LeadingTerm(ts).value.coef) != 0.0
    ensures forall e :: e > Degree(ts) ==> Coeff(ts, e) == 0.0
  {
    var k := FirstNonZero(ts);
    assert k < |ts|;
    LeadingCoeff(ts, k);
    forall e | e > ts[k].degree
      ensures Coeff(ts, e) == 0.0
    {
      AboveLeading(ts, k, e);
    }
  }

  lemma LeadingCoeff(ts: seq<Term>, k: nat)
    requires StrictlyDecreasing(ts) && PositiveDens(ts) && k < |ts| && ts[k].coef.num != 0
    ensures Coeff(ts, ts[k].degree) == Val(ts[k].coef) != 0.0
  {
    CoeffAt(ts, k);
    ValZero(ts[k].coef);
  }

  lemma AboveLeading(ts: seq<Term>, k: nat, e: int)
    requires StrictlyDecreasing(ts) && k < |ts| && e > ts[k].degree
    requires forall j :: 0 <= j < k ==> ts[j].coef.num == 0
    ensures Coeff(ts, e) == 0.0
  {
    CoeffVanishes(ts, e);
  }

  /** Conversely, if every power from D up vanishes, the degree is below D. */
  lemma DegreeBelow(ts: seq<Term>, bound: int)
    requires StrictlyDecreasing(ts) && PositiveDens(ts)
    requires forall e :: e >= bound ==> Coeff(ts, e) == 0.0
    ensures AllZero(ts) || Degree(ts) < bound
  {
    if !AllZero(ts) {
      DegreeCoeff(ts);
    }
  }

  // ----- appendTerm -----------------------------------------------------

  /** Index of the first term of smaller degree than d (|ts| if there is none). */
  function FirstSmaller(ts: seq<Term>, d: int): (k: nat)
    ensures k <= |ts|
    ensures forall j :: 0 <= j < k ==> ts[j].degree >= d
    ensures k < |ts| ==> ts[k].degree < d
  {
    if ts == [] then 0
    else if ts[0].degree < d then 0
    else 1 + FirstSmaller(ts[1..], d)
  }

  /**
   * Where appendTerm puts a new term of degree d: before the first term of
   * smaller degree, or at the end. A list of one term is a special case in the
   * source: the new term goes after it only if that term has larger degree,
   * so an equal degree goes first.
   */
  function InsertionIndex(ts: seq<Term>, d: int): (k: nat)
    ensures k <= |ts|
    ensures |ts| != 1 || ts[0].degree != d ==> k == FirstSmaller(ts, d)
    ensures |ts| == 1 && ts[0].degree == d ==> k == 0
  {
    if |ts| == 1 then (if ts[0].degree > d then 1 else 0) else FirstSmaller(ts, d)
  }

  function Inserted(ts: seq<Term>, t: Term): seq<Term> {
    var k := InsertionIndex(ts, t.degree);
    ts[..k] + [t] + ts[k..]
  }

  /** A term that separates the degrees of two lists goes between them. */
  lemma InsertedBetween(a: seq<Term>, b: seq<Term>, t: Term)
    requires forall i :: 0 <= i < |a| ==> a[i].degree > t.degree
    requires forall i :: 0 <= i < |b| ==> b[i].degree < t.degree
    ensures Inserted(a + b, t) == a + [t] + b
  {
    var ts := a + b;
    var k := FirstSmaller(ts, t.degree);
    assert forall j :: 0 <= j < |a| ==> ts[j] == a[j];
    assert |b| > 0 ==> ts[|a|] == b[0];
    assert k == |a|;
    assert ts[..k] == a && ts[k..] == b;
  }

  /** Joining two sorted lists around a separating term keeps them sorted. */
  lemma SortedJoin(a: seq<Term>, t: Term, b: seq<Term>)
    requires StrictlyDecreasing(a) && StrictlyDecreasing(b)
    requires forall i :: 0 <= i < |a| ==> a[i].degree > t.degree
    requires forall i :: 0 <= i < |b| ==> b[i].degree < t.degree
    ensures StrictlyDecreasing(a + [t] + b)
  {
    var r := a + [t] + b;
    forall i, j | 0 <= i < j < |r|
      ensures r[i].degree > r[j].degree
    {
      if j < |a| {
        assert r[i] == a[i] && r[j] == a[j];
      } else if j == |a| {
        assert r[i] == a[i];
      } else if i > |a| {
        assert r[i] == b[i - |a| - 1] && r[j] == b[j - |a| - 1];
      } else if i == |a| {
        assert r[j] == b[j - |a| - 1];
      } else {
        assert r[i] == a[i] && r[j] == b[j - |a| - 1];
      }
    }
  }

  /**
   * appendTerm: the list grows by the new term, and a sorted list that lacks
   * its degree stays sorted.
   */
  lemma InsertedSorted(ts: seq<Term>, t: Term)
    requires StrictlyDecreasing(ts)
    requires forall i :: 0 <= i < |ts| ==> ts[i].degree != t.degree
    ensures StrictlyDecreasing(Inserted(ts, t))
    ensures multiset(Inserted(ts, t)) == multiset(ts) + multiset{t}
  {
    hide *;
    var k := FirstSmaller(ts, t.degree);
    InsertedAt(ts, t, k);
    SplitSorted(ts, t.degree, k);
    SortedJoin(ts[..k], t, ts[k..]);
    assert ts == ts[..k] + ts[k..];
  }

  lemma InsertedAt(ts: seq<Term>, t: Term, k: nat)
    requires forall i :: 0 <= i < |ts| ==> ts[i].degree != t.degree
    requires k == FirstSmaller(ts, t.degree)
    ensures k <= |ts| && Inserted(ts, t) == ts[..k] + [t] + ts[k..]
  {
  }

  /** Cut where the degrees fall below d, a sorted list gives two sorted halves on either side of d. */
  lemma SplitSorted(ts: seq<Term>, d: int, k: nat)
    requires StrictlyDecreasing(ts)
    requires forall i :: 0 <= i < |ts| ==> ts[i].degree != d
    requires k == FirstSmaller(ts, d)
    ensures StrictlyDecreasing(ts[..k]) && StrictlyDecreasing(ts[k..])
    ensures forall i :: 0 <= i < |ts[..k]| ==> ts[..k][i].degree > d
    ensures forall i :: 0 <= i < |ts[k..]| ==> ts[k..][i].degree < d
  {
    hide *;
    SlicesSorted(ts, k);
    SplitBounds(ts, d, k);
  }

  lemma SlicesSorted(ts: seq<Term>, k: nat)
    requires StrictlyDecreasing(ts) && k <= |ts|
    ensures StrictlyDecreasing(ts[..k]) && StrictlyDecreasing(ts[k..])
  {
    var a, b := ts[..k], ts[k..];
    assert forall i :: 0 <= i < |a| ==> a[i] == ts[i];
    assert forall i :: 0 <= i < |b| ==> b[i] == ts[k + i];
  }

  lemma SplitBounds(ts: seq<Term>, d: int, k: nat)
    requires StrictlyDecreasing(ts)
    requires forall i :: 0 <= i < |ts| ==> ts[i].degree != d
    requires k == FirstSmaller(ts, d)
    ensures forall i :: 0 <= i < |ts[..k]| ==> ts[..k][i].degree > d
    ensures forall i :: 0 <= i < |ts[k..]| ==> ts[k..][i].degree < d
  {
    var a, b := ts[..k], ts[k..];
    assert forall i :: 0 <= i < |a| ==> a[i] == ts[i];
    assert forall i :: 0 <= i < |b| ==> b[i] == ts[k + i];
  }

  lemma InsertedCoeff(ts: seq<Term>, t: Term, d: int)
    ensures Coeff(Inserted(ts, t), d) == Coeff(ts, d) + Single(t, d)
  {
    var k := InsertionIndex(ts, t.degree);
    assert ts == ts[..k] + ts[k..];
    CoeffAppend(ts[..k], ts[k..], d);
    CoeffAppend(ts[..k] + [t], ts[k..], d);
    CoeffAppend(ts[..k], [t], d);
  }

  // ----- addMissingTerms ------------------------------------------------

  /** The zero terms of every degree strictly between hi and lo, highest first. */
  function Gap(hi: int, lo: int): (r: seq<Term>)
    ensures |r| == if hi - lo > 1 then hi - lo - 1 else 0
    ensures forall k :: 0 <= k < |r| ==> r[k] == Zero(hi - 1 - k)
    decreases hi - lo
  {
    if hi - lo <= 1 then [] else [Zero(hi - 1)] + Gap(hi - 1, lo)
  }

  /** One more step of the inner loop of addMissingTerms. */
  lemma GapSnoc(hi: int, lo: int)
    requires hi - lo >= 1
    ensures Gap(hi, lo) + [Zero(lo)] == Gap(hi, lo - 1)
  {
  }

  lemma GapCoeff(hi: int, lo: int, d: int)
    ensures Coeff(Gap(hi, lo), d) == 0.0
  {
    CoeffVanishes(Gap(hi, lo), d);
  }

  /**
   * What addMissingTerms leaves: the gap between each pair of neighbours is
   * filled with zero terms. The source walks the list left to right and
   * inserts the fillers as it goes; on a sorted list this is the same.
   */
  function Filled(ts: seq<Term>): seq<Term>
    decreases |ts|
  {
    if |ts| <= 1 then ts
    else
      var init := ts[..|ts| - 1];
      Filled(init) + Gap(init[|init| - 1].degree, ts[|ts| - 1].degree) + [ts[|ts| - 1]]
  }

  lemma ContiguousConcat(a: seq<Term>, b: seq<Term>)
    requires Contiguous(a) && Contiguous(b)
    requires |a| > 0 && |b| > 0 ==> a[|a| - 1].degree == b[0].degree + 1
    ensures Contiguous(a + b)
  {
    var r := a + b;
    forall i | 0 < i < |r|
      ensures r[i - 1].degree == r[i].degree + 1
    {
      if i < |a| {
        assert r[i - 1] == a[i - 1] && r[i] == a[i];
      } else if i == |a| {
        assert r[i - 1] == a[i - 1] && r[i] == b[0];
      } else {
        assert r[i - 1] == b[i - 1 - |a|] && r[i] == b[i - |a|];
      }
    }
  }

  lemma {:induction false} ContiguousAt(ts: seq<Term>, i: int)
    requires Contiguous(ts) && 0 <= i < |ts|
    ensures ts[i].degree == ts[0].degree - i
  {
    if i > 0 {
      ContiguousAt(ts, i - 1);
    }
  }

  /** A contiguous list is sorted, and its degrees run down from the first. */
  lemma ContiguousSorted(ts: seq<Term>)
    requires Contiguous(ts)
    ensures StrictlyDecreasing(ts)
    ensures forall i :: 0 <= i < |ts| ==> ts[i].degree == ts[0].degree - i
  {
    forall i | 0 <= i < |ts|
      ensures ts[i].degree == ts[0].degree - i
    {
      ContiguousAt(ts, i);
    }
  }

  /**
   * On a sorted list the filled list keeps the first and the last term and
   * has exactly one term for each degree from the highest to the lowest.
   */
  lemma {:induction false} FilledShape(ts: seq<Term>)
    requires StrictlyDecreasing(ts) && |ts| >= 1
    ensures var r := Filled(ts);
      && |r| == ts[0].degree - ts[|ts| - 1].degree + 1
      && r[0] == ts[0] && r[|r| - 1] == ts[|ts| - 1]
      && Contiguous(r)
    decreases |ts|
  {
    if |ts| > 1 {
      var init, last := ts[..|ts| - 1], ts[|ts| - 1];
      FilledShape(init);
      var fi := Filled(init);
      var hi := init[|init| - 1].degree;
      assert hi > last.degree;
      var g := Gap(hi, last.degree);
      ContiguousConcat(fi, g);
      ContiguousConcat(fi + g, [last]);
      assert Filled(ts) == fi + g + [last];
    }
  }

  /** Filling adds nothing to any coefficient. */
  lemma {:induction false} FilledCoeff(ts: seq<Term>, d: int)
    ensures Coeff(Filled(ts), d) == Coeff(ts, d)
    decreases |ts|
  {
    if |ts| > 1 {
      var init, last := ts[..|ts| - 1], ts[|ts| - 1];
      var g := Gap(init[|init| - 1].degree, last.degree);
      FilledCoeff(init, d);
      CoeffAppend(Filled(init) + g, [last], d);
      CoeffAppend(Filled(init), g, d);
      GapCoeff(init[|init| - 1].degree, last.degree, d);
      assert ts == init + [last];
      CoeffAppend(init, [last], d);
    }
  }

  /** Filling keeps every term and adds only zero fillers 0/1. */
  lemma {:induction false} FilledMembers(ts: seq<Term>)
    ensures forall t :: t in ts ==> t in Filled(ts)
    ensures forall t :: t in Filled(ts) ==> t in ts || t.coef == Rat(0, 1)
    decreases |ts|
  {
    hide *;
    if |ts| <= 1 {
      FilledShort(ts);
    } else {
      var init, last := ts[..|ts| - 1], ts[|ts| - 1];
      FilledUnfold(ts);
      GapZeros(ts[|ts| - 2].degree, last.degree);
      FilledMembers(init);
      assert ts == init + [last];
    }
  }

  lemma GapZeros(hi: int, lo: int)
    ensures forall t :: t in Gap(hi, lo) ==> t.coef == Rat(0, 1)
  {
  }

  /** Filling adds only zero terms, so the non-zero terms are those of the input. */
  lemma {:induction false} FilledNonZero(ts: seq<Term>)
    ensures NonZeroTerms(Filled(ts)) == NonZeroTerms(ts)
    decreases |ts|
  {
    hide *;
    if |ts| <= 1 {
      FilledShort(ts);
    } else {
      var init, last := ts[..|ts| - 1], ts[|ts| - 1];
      var g := Gap(ts[|ts| - 2].degree, last.degree);
      GapAllZero(ts[|ts| - 2].degree, last.degree);
      FilledUnfold(ts);
      NonZeroSkip(Filled(init), g, [last]);
      FilledNonZero(init);
      NonZeroAppend(init, [last]);
      assert ts == init + [last];
    }
  }

  lemma GapAllZero(hi: int, lo: int)
    ensures AllZero(Gap(hi, lo))
  {
  }

  lemma FilledUnfold(ts: seq<Term>)
    requires |ts| > 1
    ensures Filled(ts) ==
      Filled(ts[..|ts| - 1]) + Gap(ts[|ts| - 2].degree, ts[|ts| - 1].degree) + [ts[|ts| - 1]]
  {
  }

  /** A list without gaps is already filled. */
  lemma {:induction false} FilledContiguous(ts: seq<Term>)
    requires Contiguous(ts)
    ensures Filled(ts) == ts
    decreases |ts|
  {
    hide *;
    if |ts| <= 1 {
      FilledShort(ts);
    } else {
      var init, last := ts[..|ts| - 1], ts[|ts| - 1];
      FilledUnfold(ts);
      ContiguousInit(ts);
      FilledContiguous(init);
      assert |Gap(ts[|ts| - 2].degree, last.degree)| == 0;
      assert ts == init + [last];
    }
  }

  lemma FilledShort(ts: seq<Term>)
    requires |ts| <= 1
    ensures Filled(ts) == ts
  {
  }

  lemma ContiguousInit(ts: seq<Term>)
    requires Contiguous(ts) && |ts| > 1
    ensures Contiguous(ts[..|ts| - 1])
    ensures ts[|ts| - 2].degree == ts[|ts| - 1].degree + 1
  {
    var init := ts[..|ts| - 1];
    forall i | 0 < i < |init|
      ensures init[i - 1].degree == init[i].degree + 1
    {
      assert init[i - 1] == ts[i - 1] && init[i] == ts[i];
    }
  }

  lemma NonZeroSkip(a: seq<Term>, z: seq<Term>, b: seq<Term>)
    requires AllZero(z)
    ensures NonZeroTerms(a + z + b) == NonZeroTerms(a) + NonZeroTerms(b)
  {
    assert NonZeroTerms(z) == [];
    NonZeroAppend(a + z, b);
    NonZeroAppend(a, z);
  }

  // ----- add ------------------------------------------------------------

  /** The term `add` leaves when it adds t into s: the sum, at the degree of s. */
  function Merged(s: Term, t: Term): Term {
    Term(RatAdd(s.coef, t.coef), s.degree)
  }

  /**
   * add: a term whose degree is present is added into the first term of that
   * degree, which stays in the list even when the sum is 0; otherwise the term
   * is inserted by appendTerm and, when `fill` holds, addMissingTerms runs.
   */
  function AddTerm(ts: seq<Term>, t: Term, fill: bool): seq<Term> {
    match FindIndex(ts, t.degree)
    case Some(k) => ts[k := Merged(ts[k], t)]
    case None => if fill then Filled(Inserted(ts, t)) else Inserted(ts, t)
  }

  lemma CoeffReplace(ts: seq<Term>, k: int, m: Term, d: int)
    requires 0 <= k < |ts|
    ensures Coeff(ts[k := m], d) == Coeff(ts, d) - Single(ts[k], d) + Single(m, d)
  {
    assert ts == ts[..k] + [ts[k]] + ts[k + 1..];
    assert ts[k := m] == ts[..k] + [m] + ts[k + 1..];
    CoeffAppend(ts[..k] + [ts[k]], ts[k + 1..], d);
    CoeffAppend(ts[..k], [ts[k]], d);
    CoeffAppend(ts[..k] + [m], ts[k + 1..], d);
    CoeffAppend(ts[..k], [m], d);
  }

  /** add adds the term's value to the coefficient of its degree and to no other. */
  lemma AddTermCoeff(ts: seq<Term>, t: Term, fill: bool, d: int)
    requires PositiveDens(ts) && t.coef.den > 0
    ensures Coeff(AddTerm(ts, t, fill), d) == Coeff(ts, d) + Single(t, d)
  {
    match FindIndex(ts, t.degree)
    case Some(k) =>
      CoeffReplace(ts, k, Merged(ts[k], t), d);
    case None =>
      InsertedCoeff(ts, t, d);
      if fill {
        FilledCoeff(Inserted(ts, t), d);
      }
  }

  /**
   * add keeps a list sorted; with `fill` the result has no gaps once the
   * term was inserted, and a gap-free list stays gap-free.
   */
  lemma AddTermSorted(ts: seq<Term>, t: Term, fill: bool)
    requires StrictlyDecreasing(ts)
    ensures StrictlyDecreasing(AddTerm(ts, t, fill))
    ensures fill && (Contiguous(ts) || FindIndex(ts, t.degree).None?) ==>
      Contiguous(AddTerm(ts, t, fill))
  {
    match FindIndex(ts, t.degree)
    case Some(k) =>
      var r := ts[k := Merged(ts[k], t)];
      assert forall i :: 0 <= i < |r| ==> r[i].degree == ts[i].degree;
    case None =>
      InsertedSorted(ts, t);
      if fill {
        FilledShape(Inserted(ts, t));
        ContiguousSorted(Filled(Inserted(ts, t)));
      }
  }

  lemma InsertedMembers(ts: seq<Term>, t: Term)
    ensures forall x :: x in Inserted(ts, t) <==> x in ts || x == t
  {
    var k := InsertionIndex(ts, t.degree);
    assert ts == ts[..k] + ts[k..];
  }

  /** add keeps every denominator positive. */
  lemma AddTermDens(ts: seq<Term>, t: Term, fill: bool)
    requires PositiveDens(ts) && t.coef.den > 0
    ensures PositiveDens(AddTerm(ts, t, fill))
  {
    if FindIndex(ts, t.degree).None? {
      InsertedMembers(ts, t);
      FilledMembers(Inserted(ts, t));
    }
  }

  /** add introduces no degree below both the list's and the new term's. */
  lemma AddTermDegrees(ts: seq<Term>, t: Term, fill: bool, lo: int)
    requires StrictlyDecreasing(ts) && DegreesAtLeast(ts, lo) && t.degree >= lo
    ensures DegreesAtLeast(AddTerm(ts, t, fill), lo)
  {
    hide *;
    AddTermIs(ts, t, fill);
    match FindIndex(ts, t.degree)
    case Some(k) =>
      MergedDegrees(ts, k, t, lo);
    case None =>
      InsertedDegrees(ts, t, lo);
      if fill {
        InsertedSorted(ts, t);
        FilledDegreesAtLeast(Inserted(ts, t), lo);
      }
  }

  lemma AddTermIs(ts: seq<Term>, t: Term, fill: bool)
    ensures FindIndex(ts, t.degree).Some? ==>
      AddTerm(ts, t, fill) == ts[FindIndex(ts, t.degree).value := Merged(ts[FindIndex(ts, t.degree).value], t)]
    ensures FindIndex(ts, t.degree).None? ==>
      AddTerm(ts, t, fill) == if fill then Filled(Inserted(ts, t)) else Inserted(ts, t)
    ensures FindIndex(ts, t.degree).None? ==> forall i :: 0 <= i < |ts| ==> ts[i].degree != t.degree
  {
  }

  lemma MergedDegrees(ts: seq<Term>, k: nat, t: Term, lo: int)
    requires k < |ts| && DegreesAtLeast(ts, lo)
    ensures DegreesAtLeast(ts[k := Merged(ts[k], t)], lo)
  {
  }

  lemma InsertedDegrees(ts: seq<Term>, t: Term, lo: int)
    requires DegreesAtLeast(ts, lo) && t.degree >= lo
    ensures DegreesAtLeast(Inserted(ts, t), lo) && |Inserted(ts, t)| >= 1
  {
    InsertedMembers(ts, t);
    assert t in Inserted(ts, t);
  }

  lemma FilledDegreesAtLeast(ts: seq<Term>, lo: int)
    requires StrictlyDecreasing(ts) && |ts| >= 1 && DegreesAtLeast(ts, lo)
    ensures DegreesAtLeast(Filled(ts), lo)
  {
    FilledShape(ts);
    ContiguousSorted(Filled(ts));
  }

  // ----- addPol and mulPol ------------------------------------------------

  /** addPol: each term of ps, first to last, is added in turn. */
  function AddAll(ts: seq<Term>, ps: seq<Term>, fill: bool): seq<Term>
    decreases |ps|
  {
    if ps == [] then ts
    else AddTerm(AddAll(ts, ps[..|ps| - 1], fill), ps[|ps| - 1], fill)
  }

  lemma {:induction false} AddAllShape(ts: seq<Term>, ps: seq<Term>, fill: bool)
    requires StrictlyDecreasing(ts) && PositiveDens(ts) && PositiveDens(ps)
    ensures StrictlyDecreasing(AddAll(ts, ps, fill)) && PositiveDens(AddAll(ts, ps, fill))
    ensures fill && Contiguous(ts) ==> Contiguous(AddAll(ts, ps, fill))
    decreases |ps|
  {
    if ps != [] {
      var init := ps[..|ps| - 1];
      AddAllShape(ts, init, fill);
      AddTermSorted(AddAll(ts, init, fill), ps[|ps| - 1], fill);
      AddTermDens(AddAll(ts, init, fill), ps[|ps| - 1], fill);
    }
  }

  lemma {:induction false} AddAllDegrees(ts: seq<Term>, ps: seq<Term>, fill: bool, lo: int)
    requires StrictlyDecreasing(ts) && PositiveDens(ts) && PositiveDens(ps)
    requires DegreesAtLeast(ts, lo) && DegreesAtLeast(ps, lo)
    ensures DegreesAtLeast(AddAll(ts, ps, fill), lo)
    decreases |ps|
  {
    if ps != [] {
      var init := ps[..|ps| - 1];
      AddAllDegrees(ts, init, fill, lo);
      AddAllShape(ts, init, fill);
      AddTermDegrees(AddAll(ts, init, fill), ps[|ps| - 1], fill, lo);
    }
  }

  /** addPol adds the polynomials, coefficient by coefficient. */
  lemma {:induction false} AddAllCoeff(ts: seq<Term>, ps: seq<Term>, fill: bool, d: int)
    requires PositiveDens(ts) && PositiveDens(ps)
    ensures Coeff(AddAll(ts, ps, fill), d) == Coeff(ts, d) + Coeff(ps, d)
    decreases |ps|
  {
    hide AddTerm;
    if ps != [] {
      var init, last := ps[..|ps| - 1], ps[|ps| - 1];
      AddAllCoeff(ts, init, fill, d);
      AddAllDens(ts, init, fill);
      AddTermCoeff(AddAll(ts, init, fill), last, fill, d);
      assert ps == init + [last];
      CoeffAppend(init, [last], d);
    }
  }

  lemma {:induction false} AddAllDens(ts: seq<Term>, ps: seq<Term>, fill: bool)
    requires PositiveDens(ts) && PositiveDens(ps)
    ensures PositiveDens(AddAll(ts, ps, fill))
    decreases |ps|
  {
    if ps != [] {
      var init := ps[..|ps| - 1];
      AddAllDens(ts, init, fill);
      AddTermDens(AddAll(ts, init, fill), ps[|ps| - 1], fill);
    }
  }

  /**
   * Terms that arrive from the highest degree down are pushed in order, so
   * without filling a sorted list is rebuilt as it is.
   */
  lemma {:induction false} AddAllInOrder(ps: seq<Term>)
    requires StrictlyDecreasing(ps)
    ensures AddAll([], ps, false) == ps
    decreases |ps|
  {
    hide *;
    AddAllUnfold([], ps, false);
    if ps != [] {
      var init, last := ps[..|ps| - 1], ps[|ps| - 1];
      SortedInit(ps, init);
      AddAllInOrder(init);
      AddTermLast(init, last);
      assert ps == init + [last];
    }
  }

  lemma AddAllUnfold(ts: seq<Term>, ps: seq<Term>, fill: bool)
    ensures ps == [] ==> AddAll(ts, ps, fill) == ts
    ensures ps != [] ==> AddAll(ts, ps, fill) == AddTerm(AddAll(ts, ps[..|ps| - 1], fill), ps[|ps| - 1], fill)
  {
  }

  lemma SortedInit(ps: seq<Term>, init: seq<Term>)
    requires StrictlyDecreasing(ps) && ps != [] && init == ps[..|ps| - 1]
    ensures StrictlyDecreasing(init)
    ensures forall i :: 0 <= i < |init| ==> init[i].degree > ps[|ps| - 1].degree
  {
  }

  /** A term below every degree of the list goes at its end. */
  lemma AddTermLast(ts: seq<Term>, t: Term)
    requires forall i :: 0 <= i < |ts| ==> ts[i].degree > t.degree
    ensures AddTerm(ts, t, false) == ts + [t]
  {
    AddTermIs(ts, t, false);
    assert FindIndex(ts, t.degree).None?;
    var k := InsertionIndex(ts, t.degree);
    assert k == |ts|;
    assert ts[..k] == ts && ts[k..] == [];
  }

  /** mul on one term: coefficients multiply, degrees add. */
  function ScaleTerm(s: Term, t: Term): Term {
    Term(RatMul(s.coef, t.coef), s.degree + t.degree)
  }

  /** mul: every term multiplied by t. */
  function Scaled(ts: seq<Term>, t: Term): seq<Term> {
    seq(|ts|, i requires 0 <= i < |ts| => ScaleTerm(ts[i], t))
  }

  lemma SingleScale(s: Term, t: Term, d: int)
    ensures Single(ScaleTerm(s, t), d) == Val(t.coef) * Single(s, d - t.degree)
  {
    hide RatMul;
    var c := RatMul(s.coef, t.coef);
    assert Val(c) == Val(s.coef) * Val(t.coef);
    SingleTimes(ScaleTerm(s, t), s, Val(s.coef), Val(t.coef), Val(c), d, t.degree);
  }

  /** Single on a term whose value is x·y at degree shifted by k. */
  lemma SingleTimes(u: Term, s: Term, x: real, y: real, z: real, d: int, k: int)
    requires Val(u.coef) == z == x * y && Val(s.coef) == x && u.degree == s.degree + k
    ensures Single(u, d) == y * Single(s, d - k)
  {
  }

  /** mul multiplies the polynomial by the monomial t. */
  lemma {:induction false} ScaledCoeff(ts: seq<Term>, t: Term, v: real, d: int)
    requires v == Val(t.coef)
    ensures Coeff(Scaled(ts, t), d) == v * Coeff(ts, d - t.degree)
  {
    ScaledSingles(ts, t, v, d);
    ScaledCoeffOfSingles(ts, t, v, d);
  }

  lemma ScaledCoeffOfSingles(ts: seq<Term>, t: Term, v: real, d: int)
    requires forall i :: 0 <= i < |ts| ==> Single(Scaled(ts, t)[i], d) == v * Single(ts[i], d - t.degree)
    ensures Coeff(Scaled(ts, t), d) == v * Coeff(ts, d - t.degree)
  {
    CoeffScaledBy(ts, Scaled(ts, t), v, t.degree, d);
  }

  lemma ScaledSingles(ts: seq<Term>, t: Term, v: real, d: int)
    requires v == Val(t.coef)
    ensures |Scaled(ts, t)| == |ts|
    ensures forall i :: 0 <= i < |ts| ==> Single(Scaled(ts, t)[i], d) == v * Single(ts[i], d - t.degree)
  {
    forall i | 0 <= i < |ts|
      ensures Single(Scaled(ts, t)[i], d) == v * Single(ts[i], d - t.degree)
    {
      SingleScale(ts[i], t, d);
    }
  }

  /** Term by term scaling by v with a degree shift k scales every coefficient by v. */
  lemma {:induction false} CoeffScaledBy(ts: seq<Term>, st: seq<Term>, v: real, k: int, d: int)
    requires |st| == |ts|
    requires forall i :: 0 <= i < |ts| ==> Single(st[i], d) == v * Single(ts[i], d - k)
    ensures Coeff(st, d) == v * Coeff(ts, d - k)
  {
    hide *;
    CoeffUnfold(st, d);
    CoeffUnfold(ts, d - k);
    if ts == [] {
      assert v * 0.0 == 0.0;
    } else {
      assert forall i :: 0 <= i < |ts[1..]| ==> ts[1..][i] == ts[i + 1] && st[1..][i] == st[i + 1];
      CoeffScaledBy(ts[1..], st[1..], v, k, d);
      assert Single(st[0], d) == v * Single(ts[0], d - k);
      SumScale(Coeff(st, d), Single(st[0], d), Coeff(st[1..], d),
        v, Single(ts[0], d - k), Coeff(ts[1..], d - k), Coeff(ts, d - k));
    }
  }

  lemma CoeffUnfold(ts: seq<Term>, d: int)
    ensures ts == [] ==> Coeff(ts, d) == 0.0
    ensures ts != [] ==> Coeff(ts, d) == Single(ts[0], d) + Coeff(ts[1..], d)
  {
  }

  /** mul shifts every degree by the same amount and keeps the shape of the list. */
  lemma ScaledShape(ts: seq<Term>, t: Term)
    ensures |Scaled(ts, t)| == |ts|
    ensures forall i :: 0 <= i < |ts| ==> Scaled(ts, t)[i].degree == ts[i].degree + t.degree
    ensures StrictlyDecreasing(ts) ==> StrictlyDecreasing(Scaled(ts, t))
    ensures Contiguous(ts) ==> Contiguous(Scaled(ts, t))
    ensures PositiveDens(ts) && t.coef.den > 0 ==> PositiveDens(Scaled(ts, t))
    ensures t.coef.num != 0 ==>
      forall i :: 0 <= i < |ts| ==> (Scaled(ts, t)[i].coef.num == 0 <==> ts[i].coef.num == 0)
  {
  }

  /** mulPol: the polynomial multiplied (mul) by each term of ps, first to last. */
  function MulAll(ts: seq<Term>, ps: seq<Term>): seq<Term>
    decreases |ps|
  {
    if ps == [] then ts else MulAll(Scaled(ts, ps[0]), ps[1..])
  }

  lemma {:induction false} MulAllDens(ts: seq<Term>, ps: seq<Term>)
    requires PositiveDens(ts) && PositiveDens(ps)
    ensures PositiveDens(MulAll(ts, ps))
    decreases |ps|
  {
    if ps != [] {
      ScaledShape(ts, ps[0]);
      MulAllDens(Scaled(ts, ps[0]), ps[1..]);
    }
  }

  /**
   * The last term of ps is the last multiplication mulPol performs; with
   * ScaledCoeff, one more term q multiplies the polynomial by the monomial q.
   */
  lemma {:induction false} MulAllSnoc(ts: seq<Term>, ps: seq<Term>, q: Term)
    ensures MulAll(ts, ps + [q]) == Scaled(MulAll(ts, ps), q)
    decreases |ps|
  {
    if ps == [] {
      assert [q][1..] == [];
      assert MulAll(ts, [q]) == MulAll(Scaled(ts, q), []);
      assert ps + [q] == [q];
    } else {
      assert (ps + [q])[0] == ps[0];
      assert (ps + [q])[1..] == ps[1..] + [q];
      MulAllSnoc(Scaled(ts, ps[0]), ps[1..], q);
    }
  }

  /**
   * The product of two polynomials as a term list: a multiplied by each term
   * of b (mul), the results concatenated. It is not reduced; only its
   * coefficients matter.
   */
  function Product(a: seq<Term>, b: seq<Term>): seq<Term>
    decreases |b|
  {
    if b == [] then [] else Product(a, b[..|b| - 1]) + Scaled(a, b[|b| - 1])
  }

  /**
   * (x + 1) times x + 1: mulPol multiplies by x and then by 1, which leaves
   * x^2 + x with no constant term; the product has constant term 1.
   */
  lemma MulAllIsNotProduct()
    ensures var p := [Term(Rat(1, 1), 1), Term(Rat(1, 1), 0)];
      Coeff(MulAll(p, p), 0) == 0.0 && Coeff(Product(p, p), 0) == 1.0
  {
    hide *;
    var x, one := Term(Rat(1, 1), 1), Term(Rat(1, 1), 0);
    var p := [x, one];
    XPlusOne();
    MulAllTwo(p, x, one);
    ScaledCoeff(Scaled(p, x), one, 1.0, 0);
    ScaledCoeff(p, x, 1.0, 0);
    assert [x] + [one] == p && [] + [x] == [x];
    ProductEmpty(p, 0);
    ProductSnoc(p, [], x, 1.0, 0);
    ProductSnoc(p, [x], one, 1.0, 0);
  }

  lemma XPlusOne()
    ensures var x, one := Term(Rat(1, 1), 1), Term(Rat(1, 1), 0);
      && Val(x.coef) == 1.0 && Val(one.coef) == 1.0 && PositiveDens([x, one])
      && Coeff([x, one], -1) == 0.0 && Coeff([x, one], 0) == 1.0
  {
    var p := [Term(Rat(1, 1), 1), Term(Rat(1, 1), 0)];
    assert p[1..][1..] == [];
  }

  lemma MulAllTwo(ts: seq<Term>, a: Term, b: Term)
    ensures MulAll(ts, [a, b]) == Scaled(Scaled(ts, a), b)
  {
    assert [a, b][1..] == [b] && [b][1..] == [];
    assert MulAll(ts, [a, b]) == MulAll(Scaled(ts, a), [b]);
    assert MulAll(Scaled(ts, a), [b]) == MulAll(Scaled(Scaled(ts, a), b), []);
  }

  lemma ProductEmpty(a: seq<Term>, d: int)
    ensures Coeff(Product(a, []), d) == 0.0
  {
    assert Product(a, []) == [];
  }

  /** Product is additive in its second factor. */
  lemma {:induction false} ProductAppend(a: seq<Term>, x: seq<Term>, y: seq<Term>)
    ensures Product(a, x + y) == Product(a, x) + Product(a, y)
    decreases |y|
  {
    hide Scaled;
    if y == [] {
      assert x + y == x;
    } else {
      var init, last := y[..|y| - 1], y[|y| - 1];
      assert (x + y)[..|x + y| - 1] == x + init;
      ProductAppend(a, x, init);
    }
  }

  /** Zero terms of b contribute nothing to the product. */
  lemma {:induction false} ProductOfZeros(a: seq<Term>, z: seq<Term>, d: int)
    requires AllZero(z)
    ensures Coeff(Product(a, z), d) == 0.0
    decreases |z|
  {
    if z != [] {
      var init, last := z[..|z| - 1], z[|z| - 1];
      ProductOfZeros(a, init, d);
      CoeffAppend(Product(a, init), Scaled(a, last), d);
      ScaledShape(a, last);
      CoeffVanishes(Scaled(a, last), d);
    }
  }

  /** One more term q of b adds a times q: the coefficient of the product grows by a·q. */
  lemma ProductSnoc(a: seq<Term>, b: seq<Term>, q: Term, v: real, d: int)
    requires PositiveDens(a) && q.coef.den > 0 && v == Val(q.coef)
    ensures Coeff(Product(a, b + [q]), d) == Coeff(Product(a, b), d) + v * Coeff(a, d - q.degree)
  {
    assert (b + [q])[..|b + [q]| - 1] == b;
    CoeffAppend(Product(a, b), Scaled(a, q), d);
    ScaledCoeff(a, q, v, d);
  }

  /** x·w = x·y + x·z when w = y + z (stated apart: the solver does not find it in context). */
  lemma Distrib(x: real, y: real, z: real, w: real)
    requires w == y + z
    ensures x * w == x * y + x * z
  {
  }

  /** Two scaled summands make the scaled sum (stated apart: in context the solver misses it). */
  lemma SumScale(x: real, p: real, q: real, v: real, y: real, z: real, w: real)
    requires x == p + q && p == v * y && q == v * z && w == y + z
    ensures x == v * w
  {
  }


}
