/**
 * The example the page opens with (src/App.tsx:6-7): 8x^4 + 0x^3 + 6x^2 - 3x + 1
 * divided by 2x^2 - x + 2, as src/logic.ts runs it (no filling). Two steps,
 * quotient 4x^2 + 2x, remainder -7x + 1.
 */
module DefaultExample {
  import opened Wrappers
  import opened Shared
  import opened RealNumbers
  import opened Monomials
  import opened TermLists
  import opened Division
  import P = Parsing

  /** The whole-number term n·x^d. */
  function T(n: int, d: int): Term {
    Term(Rat(n, 1), d)
  }

  const Dividend: seq<Term> := [T(8, 4), T(0, 3), T(6, 2), T(-3, 1), T(1, 0)]
  const Divisor: seq<Term> := [T(2, 2), T(-1, 1), T(2, 0)]
  const Product1: seq<Term> := [T(8, 4), T(-4, 3), T(8, 2)]
  const Remainder1: seq<Term> := [T(0, 4), T(4, 3), T(-2, 2), T(-3, 1), T(1, 0)]
  const Product2: seq<Term> := [T(4, 3), T(-2, 2), T(4, 1)]
  const Remainder2: seq<Term> := [T(0, 4), T(0, 3), T(0, 2), T(-7, 1), T(1, 0)]

  /** The two strings the page starts with. */
  const DividendText: string := "8x^4+0x^3+6x^2-3x+1"
  const DivisorText: string := "2x^2-x+2"

  // ----- Reading the default strings --------------------------------------

  lemma DividendTokens()
    ensures P.Tokens(DividendText) == ["8x^4", "+0x^3", "+6x^2", "-3x", "+1"]
  {
    hide P.TokensFrom, P.Tokens;
    P.TokensUnfold(DividendText);
    assert DividendText[..1] == "8" && DividendText[1..] == "x^4+0x^3+6x^2-3x+1";
    DividendToken1();
    DividendToken2();
    DividendToken3();
    DividendToken4();
    DividendToken5();
  }

  lemma DividendToken1()
    ensures P.TokensFrom("8", "x^4+0x^3+6x^2-3x+1") == ["8x^4"] + P.TokensFrom("+", "0x^3+6x^2-3x+1")
  {
    P.TokenStep("8", "x^4", '+', "0x^3+6x^2-3x+1", "x^4+0x^3+6x^2-3x+1");
    assert "8" + "x^4" == "8x^4" && ['+'] == "+";
  }

  lemma DividendToken2()
    ensures P.TokensFrom("+", "0x^3+6x^2-3x+1") == ["+0x^3"] + P.TokensFrom("+", "6x^2-3x+1")
  {
    P.TokenStep("+", "0x^3", '+', "6x^2-3x+1", "0x^3+6x^2-3x+1");
    assert "+" + "0x^3" == "+0x^3" && ['+'] == "+";
  }

  lemma DividendToken3()
    ensures P.TokensFrom("+", "6x^2-3x+1") == ["+6x^2"] + P.TokensFrom("-", "3x+1")
  {
    P.TokenStep("+", "6x^2", '-', "3x+1", "6x^2-3x+1");
    assert "+" + "6x^2" == "+6x^2" && ['-'] == "-";
  }

  lemma DividendToken4()
    ensures P.TokensFrom("-", "3x+1") == ["-3x"] + P.TokensFrom("+", "1")
  {
    P.TokenStep("-", "3x", '+', "1", "3x+1");
    assert "-" + "3x" == "-3x" && ['+'] == "+";
  }

  lemma DividendToken5()
    ensures P.TokensFrom("+", "1") == ["+1"]
  {
    P.TokenLast("+", "1");
    assert "+" + "1" == "+1";
  }

  lemma DivisorTokens()
    ensures P.Tokens(DivisorText) == ["2x^2", "-x", "+2"]
  {
    hide P.TokensFrom, P.Tokens;
    P.TokensUnfold(DivisorText);
    assert DivisorText[..1] == "2" && DivisorText[1..] == "x^2-x+2";
    DivisorToken1();
    DivisorToken2();
    DivisorToken3();
  }

  lemma DivisorToken1()
    ensures P.TokensFrom("2", "x^2-x+2") == ["2x^2"] + P.TokensFrom("-", "x+2")
  {
    P.TokenStep("2", "x^2", '-', "x+2", "x^2-x+2");
    assert "2" + "x^2" == "2x^2" && ['-'] == "-";
  }

  lemma DivisorToken2()
    ensures P.TokensFrom("-", "x+2") == ["-x"] + P.TokensFrom("+", "2")
  {
    P.TokenStep("-", "x", '+', "2", "x+2");
    assert "-" + "x" == "-x" && ['+'] == "+";
  }

  lemma DivisorToken3()
    ensures P.TokensFrom("+", "2") == ["+2"]
  {
    P.TokenLast("+", "2");
    assert "+" + "2" == "+2";
  }

  /** A token spelled by a valid lexeme reads as that lexeme's term. */
  lemma ReadsAs(l: P.Lexeme, tok: string, t: Term)
    requires P.ValidLexeme(l) && P.Spell(l) == tok && P.LexemeTerm(l) == t
    ensures P.ParseTerm(tok) == Some(t)
  {
    P.LexComplete(l);
  }

  lemma OneDigit(c: char)
    requires P.IsDigit(c)
    ensures P.AllDigits([c]) && P.DigitsValue([c]) == P.DigitValue(c)
  {
    assert [c][..0] == "";
  }

  lemma Reads8x4()
    ensures P.ParseTerm("8x^4") == Some(T(8, 4))
  {
    OneDigit('8');
    OneDigit('4');
    ReadsAs(P.Lexeme("", "8", "x", Some("4")), "8x^4", T(8, 4));
  }

  lemma Reads0x3()
    ensures P.ParseTerm("+0x^3") == Some(T(0, 3))
  {
    OneDigit('0');
    OneDigit('3');
    ReadsAs(P.Lexeme("+", "0", "x", Some("3")), "+0x^3", T(0, 3));
  }

  lemma Reads6x2()
    ensures P.ParseTerm("+6x^2") == Some(T(6, 2))
  {
    OneDigit('6');
    OneDigit('2');
    ReadsAs(P.Lexeme("+", "6", "x", Some("2")), "+6x^2", T(6, 2));
  }

  lemma ReadsMinus3x()
    ensures P.ParseTerm("-3x") == Some(T(-3, 1))
  {
    OneDigit('3');
    ReadsAs(P.Lexeme("-", "3", "x", None), "-3x", T(-3, 1));
  }

  lemma ReadsPlus1()
    ensures P.ParseTerm("+1") == Some(T(1, 0))
  {
    OneDigit('1');
    ReadsAs(P.Lexeme("+", "1", "", None), "+1", T(1, 0));
  }

  lemma Reads2x2()
    ensures P.ParseTerm("2x^2") == Some(T(2, 2))
  {
    OneDigit('2');
    ReadsAs(P.Lexeme("", "2", "x", Some("2")), "2x^2", T(2, 2));
  }

  lemma ReadsMinusX()
    ensures P.ParseTerm("-x") == Some(T(-1, 1))
  {
    ReadsAs(P.Lexeme("-", "", "x", None), "-x", T(-1, 1));
  }

  lemma ReadsPlus2()
    ensures P.ParseTerm("+2") == Some(T(2, 0))
  {
    OneDigit('2');
    ReadsAs(P.Lexeme("+", "2", "", None), "+2", T(2, 0));
  }

  lemma DefaultsSorted()
    ensures StrictlyDecreasing(Dividend) && StrictlyDecreasing(Divisor)
  {
  }

  /**
   * buildFromString on the page's two strings (without filling, as
   * src/logic.ts builds them) gives exactly the term lists the division
   * below starts from, the explicit 0x^3 included.
   */
  lemma DefaultsParse()
    ensures P.ParseAll(P.Tokens(DividendText)).Some?
    ensures AddAll([], P.ParseAll(P.Tokens(DividendText)).value, false) == Dividend
    ensures P.ParseAll(P.Tokens(DivisorText)).Some?
    ensures AddAll([], P.ParseAll(P.Tokens(DivisorText)).value, false) == Divisor
  {
    hide *;
    DividendTokens();
    DivisorTokens();
    Reads8x4();
    Reads0x3();
    Reads6x2();
    ReadsMinus3x();
    ReadsPlus1();
    Reads2x2();
    ReadsMinusX();
    ReadsPlus2();
    DividendIs();
    DivisorIs();
    var dvd := ["8x^4", "+0x^3", "+6x^2", "-3x", "+1"];
    var dvs := ["2x^2", "-x", "+2"];
    assert forall k :: 0 <= k < |dvd| ==> P.ParseTerm(dvd[k]) == Some(Dividend[k]);
    assert forall k :: 0 <= k < |dvs| ==> P.ParseTerm(dvs[k]) == Some(Divisor[k]);
    P.ParseAllIs(dvd, Dividend);
    P.ParseAllIs(dvs, Divisor);
    DefaultsSorted();
    AddAllInOrder(Dividend);
    AddAllInOrder(Divisor);
  }

  lemma DividendIs()
    ensures Dividend == [T(8, 4), T(0, 3), T(6, 2), T(-3, 1), T(1, 0)]
  {
  }

  lemma DivisorIs()
    ensures Divisor == [T(2, 2), T(-1, 1), T(2, 0)]
  {
  }

  lemma Scaled3(a: Term, b: Term, c: Term, t: Term)
    ensures Scaled([a, b, c], t) == [ScaleTerm(a, t), ScaleTerm(b, t), ScaleTerm(c, t)]
  {
  }

  lemma AddAll3(ts: seq<Term>, a: Term, b: Term, c: Term, fill: bool)
    ensures AddAll(ts, [a, b, c], fill) == AddTerm(AddTerm(AddTerm(ts, a, fill), b, fill), c, fill)
  {
    hide AddTerm;
    assert [a, b, c][..2] == [a, b] && [a, b][..1] == [a] && [a][..0] == [];
    assert AddAll(ts, [a, b, c], fill) == AddTerm(AddAll(ts, [a, b], fill), c, fill);
    assert AddAll(ts, [a, b], fill) == AddTerm(AddAll(ts, [a], fill), b, fill);
    assert AddAll(ts, [a], fill) == AddTerm(AddAll(ts, [], fill), a, fill);
  }

  lemma MergeStep(ts: seq<Term>, t: Term, k: nat, m: Term, r: seq<Term>)
    requires FindIndex(ts, t.degree) == Some(k) && Merged(ts[k], t) == m && ts[k := m] == r
    ensures AddTerm(ts, t, false) == r
  {
  }

  /** The first term of degree d is at index k. */
  lemma FindAt(ts: seq<Term>, d: int, k: nat)
    requires k < |ts| && ts[k].degree == d
    requires forall j :: 0 <= j < k ==> ts[j].degree != d
    ensures FindIndex(ts, d) == Some(k)
  {
    hide *;
  }

  lemma GcdWithOne(n: int)
    ensures Gcd(n, 1) == 1
  {
    if Abs(n) >= 1 {
      assert Abs(n) % 1 == 0;
      assert Gcd(1, 0) == 1;
    }
  }

  /** Whole coefficients of equal degree add as integers. */
  lemma WholeSum(a: int, b: int, d: int)
    ensures Merged(T(a, d), T(b, d)) == T(a + b, d)
  {
    GcdWithOne(a + b);
  }

  lemma StepValues(rem: seq<Term>, dvs: seq<Term>, q: Term, p: seq<Term>, n: seq<Term>, r: seq<Term>)
    requires LeadingTerm(rem).Some? && LeadingTerm(dvs).Some?
    requires StepQuotient(rem, dvs) == q && Scaled(dvs, q) == p && Scaled(p, Inverse) == n
    requires AddAll(rem, n, false) == r
    ensures StepProduct(rem, dvs) == p && StepRemainder(rem, dvs, false) == r
  {
  }

  // ----- Step 1: 8x^4 / 2x^2 = 4x^2 ---------------------------------------

  lemma Quotient1()
    ensures LeadingTerm(Dividend).Some? && LeadingTerm(Divisor).Some?
    ensures StepQuotient(Dividend, Divisor) == T(4, 2)
  {
  }

  lemma Product1Is()
    ensures Scaled(Divisor, T(4, 2)) == Product1
  {
    Scaled3(T(2, 2), T(-1, 1), T(2, 0), T(4, 2));
  }

  lemma Negated1()
    ensures Scaled(Product1, Inverse) == [T(-8, 4), T(4, 3), T(-8, 2)]
  {
    Scaled3(T(8, 4), T(-4, 3), T(8, 2), Inverse);
  }

  lemma Merge1a()
    ensures AddTerm(Dividend, T(-8, 4), false)
      == [T(0, 4), T(0, 3), T(6, 2), T(-3, 1), T(1, 0)]
  {
    hide FindIndex, AddTerm, Merged;
    var ts := Dividend;
    WholeSum(8, -8, 4);
    FindAt(ts, 4, 0);
    assert ts[0 := T(0, 4)] == [T(0, 4), T(0, 3), T(6, 2), T(-3, 1), T(1, 0)];
    MergeStep(ts, T(-8, 4), 0, T(0, 4), [T(0, 4), T(0, 3), T(6, 2), T(-3, 1), T(1, 0)]);
  }

  lemma Merge1b()
    ensures AddTerm([T(0, 4), T(0, 3), T(6, 2), T(-3, 1), T(1, 0)], T(4, 3), false)
      == [T(0, 4), T(4, 3), T(6, 2), T(-3, 1), T(1, 0)]
  {
    hide FindIndex, AddTerm, Merged;
    var ts := [T(0, 4), T(0, 3), T(6, 2), T(-3, 1), T(1, 0)];
    WholeSum(0, 4, 3);
    FindAt(ts, 3, 1);
    assert ts[1 := T(4, 3)] == [T(0, 4), T(4, 3), T(6, 2), T(-3, 1), T(1, 0)];
    MergeStep(ts, T(4, 3), 1, T(4, 3), [T(0, 4), T(4, 3), T(6, 2), T(-3, 1), T(1, 0)]);
  }

  lemma Merge1c()
    ensures AddTerm([T(0, 4), T(4, 3), T(6, 2), T(-3, 1), T(1, 0)], T(-8, 2), false)
      == Remainder1
  {
    hide FindIndex, AddTerm, Merged;
    var ts := [T(0, 4), T(4, 3), T(6, 2), T(-3, 1), T(1, 0)];
    WholeSum(6, -8, 2);
    FindAt(ts, 2, 2);
    assert ts[2 := T(-2, 2)] == Remainder1;
    MergeStep(ts, T(-8, 2), 2, T(-2, 2), Remainder1);
  }

  lemma Step1()
    ensures LeadingTerm(Dividend).Some? && LeadingTerm(Divisor).Some?
    ensures StepQuotient(Dividend, Divisor) == T(4, 2)
    ensures StepProduct(Dividend, Divisor) == Product1
    ensures StepRemainder(Dividend, Divisor, false) == Remainder1
  {
    hide *;
    Quotient1();
    Product1Is();
    Negated1();
    AddAll3(Dividend, T(-8, 4), T(4, 3), T(-8, 2), false);
    Merge1a();
    Merge1b();
    Merge1c();
    StepValues(Dividend, Divisor, T(4, 2), Product1, [T(-8, 4), T(4, 3), T(-8, 2)], Remainder1);
  }

  // ----- Step 2: 4x^3 / 2x^2 = 2x -----------------------------------------

  lemma Quotient2()
    ensures LeadingTerm(Remainder1).Some?
    ensures StepQuotient(Remainder1, Divisor) == T(2, 1)
  {
  }

  lemma Product2Is()
    ensures Scaled(Divisor, T(2, 1)) == Product2
  {
    Scaled3(T(2, 2), T(-1, 1), T(2, 0), T(2, 1));
  }

  lemma Negated2()
    ensures Scaled(Product2, Inverse) == [T(-4, 3), T(2, 2), T(-4, 1)]
  {
    Scaled3(T(4, 3), T(-2, 2), T(4, 1), Inverse);
  }

  lemma Merge2a()
    ensures AddTerm(Remainder1, T(-4, 3), false)
      == [T(0, 4), T(0, 3), T(-2, 2), T(-3, 1), T(1, 0)]
  {
    hide FindIndex, AddTerm, Merged;
    var ts := Remainder1;
    WholeSum(4, -4, 3);
    FindAt(ts, 3, 1);
    assert ts[1 := T(0, 3)] == [T(0, 4), T(0, 3), T(-2, 2), T(-3, 1), T(1, 0)];
    MergeStep(ts, T(-4, 3), 1, T(0, 3), [T(0, 4), T(0, 3), T(-2, 2), T(-3, 1), T(1, 0)]);
  }

  lemma Merge2b()
    ensures AddTerm([T(0, 4), T(0, 3), T(-2, 2), T(-3, 1), T(1, 0)], T(2, 2), false)
      == [T(0, 4), T(0, 3), T(0, 2), T(-3, 1), T(1, 0)]
  {
    hide FindIndex, AddTerm, Merged;
    var ts := [T(0, 4), T(0, 3), T(-2, 2), T(-3, 1), T(1, 0)];
    WholeSum(-2, 2, 2);
    FindAt(ts, 2, 2);
    assert ts[2 := T(0, 2)] == [T(0, 4), T(0, 3), T(0, 2), T(-3, 1), T(1, 0)];
    MergeStep(ts, T(2, 2), 2, T(0, 2), [T(0, 4), T(0, 3), T(0, 2), T(-3, 1), T(1, 0)]);
  }

  lemma Merge2c()
    ensures AddTerm([T(0, 4), T(0, 3), T(0, 2), T(-3, 1), T(1, 0)], T(-4, 1), false)
      == Remainder2
  {
    hide FindIndex, AddTerm, Merged;
    var ts := [T(0, 4), T(0, 3), T(0, 2), T(-3, 1), T(1, 0)];
    WholeSum(-3, -4, 1);
    FindAt(ts, 1, 3);
    assert ts[3 := T(-7, 1)] == Remainder2;
    MergeStep(ts, T(-4, 1), 3, T(-7, 1), Remainder2);
  }

  lemma Step2()
    ensures LeadingTerm(Remainder1).Some? && LeadingTerm(Divisor).Some?
    ensures StepQuotient(Remainder1, Divisor) == T(2, 1)
    ensures StepProduct(Remainder1, Divisor) == Product2
    ensures StepRemainder(Remainder1, Divisor, false) == Remainder2
  {
    hide *;
    Quotient1();
    Quotient2();
    Product2Is();
    Negated2();
    AddAll3(Remainder1, T(-4, 3), T(2, 2), T(-4, 1), false);
    Merge2a();
    Merge2b();
    Merge2c();
    StepValues(Remainder1, Divisor, T(2, 1), Product2, [T(-4, 3), T(2, 2), T(-4, 1)], Remainder2);
  }

  lemma Degrees()
    ensures Degree(Divisor) == 2 && Degree(Remainder1) == 3 && Degree(Remainder2) == 1
    ensures !AllZero(Remainder1) && !AllZero(Remainder2)
  {
    hide *;
    DivisorDegree();
    Remainder1Degree();
    Remainder2Degree();
  }

  lemma DivisorDegree()
    ensures Degree(Divisor) == 2
  {
  }

  lemma Remainder1Degree()
    ensures Degree(Remainder1) == 3 && !AllZero(Remainder1)
  {
    assert Remainder1[1].coef.num != 0;
  }

  lemma Remainder2Degree()
    ensures Degree(Remainder2) == 1 && !AllZero(Remainder2)
  {
    assert Remainder2[3].coef.num != 0;
  }

  /**
   * Every record a successful division of the defaults can return: two
   * steps, quotient 4x^2 + 2x, remainder -7x + 1 (with the cancelled terms of
   * degrees 4, 3 and 2 still in the list as zeros).
   */
  lemma DefaultDivision(p: Process)
    requires Divided(Dividend, Divisor, p, false)
    ensures p.quotient == [T(4, 2), T(2, 1)]
    ensures p.remainder == Remainder2
    ensures p.steps == [Product1, Remainder1, Product2, Remainder2]
  {
    hide *;
    Step1();
    Step2();
    Degrees();
    DividedParts(Dividend, Divisor, p, false);
    var qs := NonZeroTerms(p.quotient);
    NonZeroAll(p.quotient);
    RunAt(Dividend, Divisor, qs, p.steps, false, 0);
    assert |qs| != 1;
    RunAt(Dividend, Divisor, qs, p.steps, false, 1);
    assert |qs| < 3 by {
      if |qs| >= 3 {
        ContinuedAt(Divisor, p.steps, 3);
      }
    }
    assert p.quotient == [qs[0], qs[1]];
  }

  /**
   * The page as it opens: the two default strings built without filling and
   * divided. Every record a successful division returns is the one above.
   */
  lemma DefaultPage(p: Process)
    requires P.ParseAll(P.Tokens(DividendText)).Some? && P.ParseAll(P.Tokens(DivisorText)).Some?
    requires Divided(AddAll([], P.ParseAll(P.Tokens(DividendText)).value, false),
      AddAll([], P.ParseAll(P.Tokens(DivisorText)).value, false), p, false)
    ensures p.quotient == [T(4, 2), T(2, 1)]
    ensures p.remainder == Remainder2
    ensures p.steps == [Product1, Remainder1, Product2, Remainder2]
  {
    hide *;
    DefaultsParse();
    DefaultDivision(p);
  }
}
