/**
 * The Polynomial class of src/logic/polynomial.ts (and of src/logic.ts, which
 * differs only in never filling gaps). Its `terms` array is a sequence of
 * `Term` values; a method that changes a term in place replaces that element.
 *
 * The options object of the source becomes explicit booleans: `inPlace`, and
 * `fill` for `addMissingTerms`. polynomial.ts fills by default (and always
 * inside `addPol`); logic.ts never fills, which is `fill == false`.
 */
module Polynomials {
  import opened Wrappers
  import opened RealNumbers
  import opened Monomials
  import opened TermLists
  import P = Parsing

  class Polynomial {
    var terms: seq<Term>

    constructor (terms: seq<Term>)
      ensures this.terms == terms
    {
      this.terms := terms;
    }

    /** copy (lodash `cloneDeep`): a new object with the same terms. */
    method Copy() returns (c: Polynomial)
      ensures fresh(c) && c.terms == terms
    {
      c := new Polynomial(terms);
    }

    /**
     * buildFromString: cut the expression into tokens, read each as a term
     * and add it in place (filling gaps when `fill` holds), in order. A token
     * that is not a term throws "Bad input"; so does the empty expression,
     * whose first character is undefined.
     */
    static method BuildFromString(expression: string, fill: bool) returns (r: Result<Polynomial, string>)
      ensures r.Failure? ==> r.error == "Bad input"
      ensures |expression| == 0 ==> r.Failure?
      ensures |expression| > 0 ==> (r.Success? <==> P.ParseAll(P.Tokens(expression)).Some?)
      ensures r.Success? ==>
        |expression| > 0 && fresh(r.value) &&
        r.value.terms == AddAll([], P.ParseAll(P.Tokens(expression)).value, fill)
      ensures r.Success? ==> WellFormed(r.value.terms) && (fill ==> Contiguous(r.value.terms))
    {
      hide *;
      if |expression| == 0 {
        return Failure("Bad input");
      }
      var terms := P.Tokenize(expression);
      var polynomial := new Polynomial([]);
      var i := 0;
      BuildStart(terms, fill);
      while i < |terms|
        invariant 0 <= i <= |terms|
        invariant P.ParseAll(terms[..i]).Some?
        invariant polynomial.terms == AddAll([], P.ParseAll(terms[..i]).value, fill)
        invariant StrictlyDecreasing(polynomial.terms)
        invariant fresh(polynomial)
      {
        var result := P.ParseTerm(terms[i]);
        if result.None? {
          BuildStops(terms, i);
          return Failure("Bad input");
        }
        BuildStep(terms, i, fill);
        AddTermSorted(polynomial.terms, result.value, fill);
        var dropped := polynomial.Add(result.value, true, fill);
        i := i + 1;
      }
      BuildDone(terms, i, fill);
      return Success(polynomial);
    }

    /**
     * appendTerm: find the first term of smaller degree (the turning point)
     * and insert the new term before it, or push it at the end. A list of one
     * term is a case of its own.
     */
    method AppendTerm(newTerm: Term)
      modifies this
      ensures terms == Inserted(old(terms), newTerm)
    {
      var indexBehind, indexAfter := -1, -1;
      if |terms| > 1 {
        var degreeDist := 0;
        var i := 0;
        while i < |terms|
          invariant 0 <= i <= |terms|
          invariant indexBehind == -1 && indexAfter == -1
          invariant forall j :: 0 <= j < i ==> terms[j].degree >= newTerm.degree
        {
          degreeDist := terms[i].degree - newTerm.degree;
          if degreeDist < 0 && i == 0 {
            indexAfter := i;
            break;
          } else if degreeDist < 0 {
            indexAfter := i;
            indexBehind := i - 1;
            break;
          }
          i := i + 1;
        }
        if indexBehind < 0 && indexAfter < 0 {
          indexBehind := |terms| - 1;
        }
        assert indexAfter == -1 ==> FirstSmaller(terms, newTerm.degree) == |terms|;
        assert indexAfter >= 0 ==> FirstSmaller(terms, newTerm.degree) == indexAfter;
      } else if |terms| == 1 {
        if terms[0].degree > newTerm.degree {
          indexBehind := 0;
        } else {
          indexAfter := 0;
        }
      }

      ghost var ts, pos := terms, if indexAfter >= 0 then indexAfter else |terms|;
      assert Inserted(ts, newTerm) == ts[..pos] + [newTerm] + ts[pos..];
      assert indexBehind >= 0 && indexAfter >= 0 ==> pos == indexBehind + 1;
      assert indexBehind == -1 && indexAfter >= 0 ==> pos == 0;
      hide Inserted, InsertionIndex, FirstSmaller;
      if indexBehind >= 0 && indexAfter >= 0 {
        terms := terms[..indexBehind + 1] + [newTerm] + terms[indexBehind + 1..];
      } else if indexBehind == -1 && indexAfter == -1 {
        terms := terms + [newTerm];
      } else if indexBehind >= 0 && indexAfter == -1 {
        terms := terms + [newTerm];
      } else {
        // indexBehind == -1 and indexAfter >= 0: insert at the front
        terms := [newTerm] + terms;
      }
    }

    /**
     * addMissingTerms: walk the list and, between neighbours whose degrees
     * differ by more than one, insert a zero term for each missing degree
     * (through appendTerm). The list the walk sees grows as it goes; the
     * fillers it then meets differ from their neighbours by exactly one.
     * Only called on sorted lists.
     */
    method AddMissingTerms()
      requires StrictlyDecreasing(terms)
      modifies this
      ensures terms == Filled(old(terms))
    {
      ghost var ts := terms;
      // the walk has filled the part ts[..j] of the original list
      ghost var j := if |ts| > 0 then 1 else 0;
      WalkStart(ts);
      hide Walk, WalkGap, DoneLen, Filled, Inserted;
      var i := 1;
      while i < |terms|
        invariant 0 <= j <= |ts|
        invariant terms == Walk(ts, j)
        invariant |ts| > 0 ==> 1 <= j && 1 <= i <= DoneLen(ts, j)
        invariant |ts| == 0 ==> terms == []
        decreases |ts| - j, DoneLen(ts, j) - i
      {
        WalkLength(ts, j);
        ghost var atBoundary := i == DoneLen(ts, j);
        if atBoundary {
          WalkBoundary(ts, j);
        } else {
          WalkInside(ts, j, i);
        }
        var term := terms[i];
        var prevTerm := terms[i - 1];
        if prevTerm.degree - term.degree > 1 {
          var d := prevTerm.degree - 1;
          while d > term.degree
            invariant term.degree <= d < prevTerm.degree
            invariant terms == WalkGap(ts, j, d)
          {
            WalkGapInsert(ts, j, d);
            AppendTerm(Zero(d));
            d := d - 1;
          }
        }
        if atBoundary {
          WalkAdvance(ts, j);
          j := j + 1;
        }
        i := i + 1;
      }
      WalkLength(ts, j);
      WalkEnd(ts, j);
    }

    /**
     * add: if a term of the same degree is found, its coefficient absorbs the
     * new one; otherwise the term is inserted and, with `fill`, the gaps are
     * filled. The lookup runs on this object even when the work is done on a
     * copy, so without `inPlace` a merge changes this object and returns an
     * unchanged copy, while an insertion changes only the copy.
     */
    method Add(term: Term, inPlace: bool, fill: bool) returns (r: Polynomial?)
      requires fill ==> StrictlyDecreasing(terms)
      modifies this
      ensures inPlace ==> r == null && terms == AddTerm(old(terms), term, fill)
      ensures !inPlace ==> r != null && fresh(r)
      ensures !inPlace && FindIndex(old(terms), term.degree).Some? ==>
        terms == AddTerm(old(terms), term, fill) && r.terms == old(terms)
      ensures !inPlace && FindIndex(old(terms), term.degree).None? ==>
        terms == old(terms) && r.terms == AddTerm(old(terms), term, fill)
    {
      var currPolynomial: Polynomial;
      if inPlace {
        currPolynomial := this;
      } else {
        currPolynomial := Copy();
      }
      var polTerm := FindIndex(terms, term.degree);
      if polTerm.Some? {
        var k := polTerm.value;
        terms := terms[k := Term(RatAdd(terms[k].coef, term.coef), terms[k].degree)];
      } else {
        ghost var before := currPolynomial.terms;
        currPolynomial.AppendTerm(term);
        if fill {
          InsertedSorted(before, term);
          currPolynomial.AddMissingTerms();
        }
      }
      if inPlace {
        r := null;
      } else {
        r := currPolynomial;
      }
    }

    /** mul: every coefficient is multiplied by the term's, every degree raised by its degree. */
    method Mul(term: Term, inPlace: bool) returns (r: Polynomial?)
      modifies if inPlace then {this} else {}
      ensures inPlace ==> r == null && terms == Scaled(old(terms), term)
      ensures !inPlace ==> r != null && fresh(r) && r.terms == Scaled(terms, term)
    {
      var currPolynomial: Polynomial;
      if inPlace {
        currPolynomial := this;
      } else {
        currPolynomial := Copy();
      }
      ghost var ts := currPolynomial.terms;
      var i := 0;
      while i < |currPolynomial.terms|
        invariant |currPolynomial.terms| == |ts| && 0 <= i <= |ts|
        invariant forall k :: 0 <= k < i ==> currPolynomial.terms[k] == ScaleTerm(ts[k], term)
        invariant forall k :: i <= k < |ts| ==> currPolynomial.terms[k] == ts[k]
        invariant !inPlace ==> fresh(currPolynomial)
      {
        var currTerm := currPolynomial.terms[i];
        currPolynomial.terms := currPolynomial.terms[i :=
          Term(RatMul(currTerm.coef, term.coef), currTerm.degree + term.degree)];
        i := i + 1;
      }
      assert currPolynomial.terms == Scaled(ts, term);
      if inPlace {
        r := null;
      } else {
        r := currPolynomial;
      }
    }

    /**
     * addPol: each term of `pol`, first to last, added in place into this
     * object or a copy. `fill` is the `addMissingTerms` of those inner calls:
     * always on in polynomial.ts, absent from logic.ts.
     */
    method AddPol(pol: Polynomial, inPlace: bool, fill: bool) returns (r: Polynomial?)
      requires fill ==> StrictlyDecreasing(terms)
      modifies if inPlace then {this} else {}
      ensures inPlace ==> r == null && terms == AddAll(old(terms), old(pol.terms), fill)
      ensures !inPlace ==> r != null && fresh(r) && r.terms == AddAll(terms, pol.terms, fill)
    {
      hide AddTerm;
      var currPolynomial: Polynomial;
      if inPlace {
        currPolynomial := this;
      } else {
        currPolynomial := Copy();
      }
      ghost var ts := currPolynomial.terms;
      var ps := pol.terms;
      var i := 0;
      while i < |ps|
        invariant 0 <= i <= |ps|
        invariant currPolynomial.terms == AddAll(ts, ps[..i], fill)
        invariant fill ==> StrictlyDecreasing(currPolynomial.terms)
        invariant !inPlace ==> fresh(currPolynomial) && terms == old(terms)
      {
        if fill {
          AddTermSorted(currPolynomial.terms, ps[i], fill);
        }
        var dropped := currPolynomial.Add(ps[i], true, fill);
        assert ps[..i + 1][..i] == ps[..i];
        i := i + 1;
      }
      assert ps[..i] == ps;
      if inPlace {
        r := null;
      } else {
        r := currPolynomial;
      }
    }

    /** mulPol: the polynomial multiplied (mul) by each term of `pol`, first to last. */
    method MulPol(pol: Polynomial, inPlace: bool) returns (r: Polynomial?)
      modifies if inPlace then {this} else {}
      ensures inPlace ==> r == null && terms == MulAll(old(terms), old(pol.terms))
      ensures !inPlace ==> r != null && fresh(r) && r.terms == MulAll(terms, pol.terms)
    {
      var currPolynomial: Polynomial;
      if inPlace {
        currPolynomial := this;
      } else {
        currPolynomial := Copy();
      }
      ghost var ts := currPolynomial.terms;
      var ps := pol.terms;
      var i := 0;
      while i < |ps|
        invariant 0 <= i <= |ps|
        invariant MulAll(currPolynomial.terms, ps[i..]) == MulAll(ts, ps)
        invariant !inPlace ==> fresh(currPolynomial) && terms == old(terms)
      {
        assert ps[i..][0] == ps[i] && ps[i..][1..] == ps[i + 1..];
        var dropped := currPolynomial.Mul(ps[i], true);
        i := i + 1;
      }
      assert ps[i..] == [];
      if inPlace {
        r := null;
      } else {
        r := currPolynomial;
      }
    }
  }

  /** Before the first token: nothing parsed, nothing built. */
  lemma BuildStart(toks: seq<string>, fill: bool)
    ensures P.ParseAll(toks[..0]) == Some([])
    ensures AddAll([], P.ParseAll(toks[..0]).value, fill) == []
    ensures StrictlyDecreasing([])
  {
  }

  /** One more token read as a term: one more term added. */
  lemma BuildStep(toks: seq<string>, i: nat, fill: bool)
    requires i < |toks| && P.ParseAll(toks[..i]).Some? && P.ParseTerm(toks[i]).Some?
    ensures P.ParseAll(toks[..i + 1]).Some?
    ensures AddAll([], P.ParseAll(toks[..i + 1]).value, fill) ==
      AddTerm(AddAll([], P.ParseAll(toks[..i]).value, fill), P.ParseTerm(toks[i]).value, fill)
  {
    assert toks[..i + 1][..i] == toks[..i];
    var ps := P.ParseAll(toks[..i + 1]).value;
    assert ps[..i] == P.ParseAll(toks[..i]).value;
  }

  /** A token that is not a term makes the whole parse fail. */
  lemma BuildStops(toks: seq<string>, i: nat)
    requires i < |toks| && P.ParseTerm(toks[i]).None?
    ensures P.ParseAll(toks).None?
  {
  }

  /** After the last token, the built list is what the inputs describe. */
  lemma BuildDone(toks: seq<string>, i: nat, fill: bool)
    requires i == |toks| && P.ParseAll(toks[..i]).Some?
    ensures toks[..i] == toks && P.ParseAll(toks).Some?
    ensures WellFormed(AddAll([], P.ParseAll(toks).value, fill))
    ensures fill ==> Contiguous(AddAll([], P.ParseAll(toks).value, fill))
  {
    assert toks[..i] == toks;
    var ps := P.ParseAll(toks).value;
    forall k | 0 <= k < |ps|
      ensures ps[k].coef.den == 1 && ps[k].degree >= 0
    {
      assert ps[k] == P.ParseTerm(toks[k]).value;
    }
    BuiltWellFormed(ps, fill, 0);
  }

  /**
   * What buildFromString builds from the parsed terms (whole denominators 1,
   * no negative degree): a well-formed list, gap-free when filled, with each
   * coefficient the sum of the parsed terms of that degree.
   */
  lemma BuiltWellFormed(ps: seq<Term>, fill: bool, d: int)
    requires forall k :: 0 <= k < |ps| ==> ps[k].coef.den == 1 && ps[k].degree >= 0
    ensures WellFormed(AddAll([], ps, fill))
    ensures fill ==> Contiguous(AddAll([], ps, fill))
    ensures Coeff(AddAll([], ps, fill), d) == Coeff(ps, d)
  {
    AddAllShape([], ps, fill);
    AddAllDegrees([], ps, fill, 0);
    AddAllCoeff([], ps, fill, d);
  }

  // ----- The walk of addMissingTerms -------------------------------------

  /** The list the walk sees once ts[..j] is filled. */
  ghost function Walk(ts: seq<Term>, j: nat): seq<Term>
    requires j <= |ts|
  {
    Filled(ts[..j]) + ts[j..]
  }

  /** Its filled part's length: where the walk meets ts[j]. */
  ghost function DoneLen(ts: seq<Term>, j: nat): nat
    requires j <= |ts|
  {
    |Filled(ts[..j])|
  }

  /** The list while the gap before ts[j] is filled down to degree d + 1. */
  ghost function WalkGap(ts: seq<Term>, j: nat, d: int): seq<Term>
    requires 1 <= j < |ts|
  {
    Filled(ts[..j]) + Gap(ts[j - 1].degree, d) + ts[j..]
  }

  lemma FilledDegrees(ts: seq<Term>)
    requires StrictlyDecreasing(ts) && |ts| >= 1
    ensures var f := Filled(ts);
      && |f| >= 1 && f[|f| - 1] == ts[|ts| - 1] && Contiguous(f)
      && forall k :: 0 <= k < |f| ==> f[k].degree >= ts[|ts| - 1].degree
  {
    FilledShape(ts);
    ContiguousSorted(Filled(ts));
  }

  lemma WalkStart(ts: seq<Term>)
    ensures var j := if |ts| > 0 then 1 else 0;
      Walk(ts, j) == ts && (|ts| > 0 ==> DoneLen(ts, 1) == 1)
  {
    if |ts| > 0 {
      assert Filled(ts[..1]) == ts[..1];
      assert ts == ts[..1] + ts[1..];
    }
  }

  lemma WalkLength(ts: seq<Term>, j: nat)
    requires j <= |ts|
    ensures |Walk(ts, j)| == DoneLen(ts, j) + |ts| - j
  {
  }

  lemma WalkEnd(ts: seq<Term>, j: nat)
    requires j <= |ts| && |Walk(ts, j)| == DoneLen(ts, j) + |ts| - j
    requires |ts| > 0 ==> DoneLen(ts, j) >= |Walk(ts, j)|
    ensures Walk(ts, j) == Filled(ts)
  {
    assert ts[..|ts|] == ts;
  }

  /** Inside the filled part, neighbours differ by one degree: the walk does nothing. */
  lemma WalkInside(ts: seq<Term>, j: nat, i: nat)
    requires StrictlyDecreasing(ts) && 1 <= j <= |ts|
    requires 1 <= i < DoneLen(ts, j)
    ensures i < |Walk(ts, j)| && Walk(ts, j)[i - 1].degree - Walk(ts, j)[i].degree == 1
  {
    FilledShape(ts[..j]);
  }

  /** At the end of the filled part the walk meets ts[j] after ts[j - 1]. */
  lemma WalkBoundary(ts: seq<Term>, j: nat)
    requires StrictlyDecreasing(ts) && 1 <= j <= |ts|
    requires DoneLen(ts, j) < |Walk(ts, j)|
    ensures j < |ts| && DoneLen(ts, j) >= 1
    ensures Walk(ts, j)[DoneLen(ts, j)] == ts[j] && Walk(ts, j)[DoneLen(ts, j) - 1] == ts[j - 1]
    ensures Walk(ts, j) == WalkGap(ts, j, ts[j - 1].degree - 1)
  {
    FilledShape(ts[..j]);
  }

  /** A filler of a degree between ts[j - 1] and ts[j] goes after the fillers before it. */
  lemma WalkGapInsert(ts: seq<Term>, j: nat, d: int)
    requires StrictlyDecreasing(ts) && 1 <= j < |ts|
    requires ts[j].degree < d < ts[j - 1].degree
    ensures Inserted(WalkGap(ts, j, d), Zero(d)) == WalkGap(ts, j, d - 1)
  {
    hide *;
    var a := Filled(ts[..j]) + Gap(ts[j - 1].degree, d);
    var rest := ts[j..];
    WalkGapParts(ts, j, d);
    InsertedBetween(a, rest, Zero(d));
    GapSnoc(ts[j - 1].degree, d);
    assert a + rest + [Zero(d)] == a + (rest + [Zero(d)]);
    assert a + [Zero(d)] + rest == Filled(ts[..j]) + (Gap(ts[j - 1].degree, d) + [Zero(d)]) + rest;
  }

  /** The filled part and the fillers so far lie above d, the rest of the list below. */
  lemma WalkGapParts(ts: seq<Term>, j: nat, d: int)
    requires StrictlyDecreasing(ts) && 1 <= j < |ts|
    requires ts[j].degree < d < ts[j - 1].degree
    ensures var a := Filled(ts[..j]) + Gap(ts[j - 1].degree, d);
      && WalkGap(ts, j, d) == a + ts[j..]
      && WalkGap(ts, j, d - 1) == Filled(ts[..j]) + Gap(ts[j - 1].degree, d - 1) + ts[j..]
      && (forall k :: 0 <= k < |a| ==> a[k].degree > d)
      && (forall k :: 0 <= k < |ts[j..]| ==> ts[j..][k].degree < d)
      && Zero(d).degree == d
  {
    var f, g := Filled(ts[..j]), Gap(ts[j - 1].degree, d);
    FilledDegrees(ts[..j]);
    var a := f + g;
    forall k | 0 <= k < |a|
      ensures a[k].degree > d
    {
      if k >= |f| {
        assert a[k] == g[k - |f|];
      }
    }
    var rest := ts[j..];
    forall k | 0 <= k < |rest|
      ensures rest[k].degree < d
    {
      assert rest[k] == ts[j + k];
    }
  }

  /** Once the gap before ts[j] is filled, the filled part reaches ts[j]. */
  lemma WalkAdvance(ts: seq<Term>, j: nat)
    requires StrictlyDecreasing(ts) && 1 <= j < |ts|
    ensures WalkGap(ts, j, ts[j].degree) == Walk(ts, j + 1)
    ensures DoneLen(ts, j + 1) > DoneLen(ts, j)
  {
    hide *;
    var p := ts[..j + 1];
    FilledUnfold(p);
    WalkUnfold(ts, j);
    WalkUnfold(ts, j + 1);
    WalkGapUnfold(ts, j, ts[j].degree);
    assert p[..|p| - 1] == ts[..j] && p[|p| - 2] == ts[j - 1] && p[|p| - 1] == ts[j];
    assert ts[j..] == [ts[j]] + ts[j + 1..];
    var f, g := Filled(ts[..j]), Gap(ts[j - 1].degree, ts[j].degree);
    assert f + g + ([ts[j]] + ts[j + 1..]) == f + g + [ts[j]] + ts[j + 1..];
  }

  lemma WalkUnfold(ts: seq<Term>, j: nat)
    requires j <= |ts|
    ensures Walk(ts, j) == Filled(ts[..j]) + ts[j..]
    ensures DoneLen(ts, j) == |Filled(ts[..j])|
  {
  }

  lemma WalkGapUnfold(ts: seq<Term>, j: nat, d: int)
    requires 1 <= j < |ts|
    ensures WalkGap(ts, j, d) == Filled(ts[..j]) + Gap(ts[j - 1].degree, d) + ts[j..]
  {
  }
}
