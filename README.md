# Polynomial long division with exact fractions

A model of the engine behind a small web page that divides one polynomial by
another in one variable and shows every step of the long division. A
polynomial is an array of monomials; a monomial is a coefficient (a fraction
kept as numerator over denominator and reduced by their gcd) and a degree.
Text such as `8x^4+0x^3+6x^2-3x+1` is cut into terms and parsed. The division
repeats one step while the remainder's degree is at least the divisor's. The
step divides the leading terms, adds the result to the quotient, multiplies
the divisor by the quotient's trailing term, and adds the negated product to
the running dividend.

The repository holds the engine twice:

- `src/logic/*.ts` is split into modules. Its `add` fills the gaps between
  degrees with zero terms by default.
- `src/logic.ts` is one file, and it is what the page uses. Its `add` never
  fills, and its `getTrailingTerm` differs (see Findings).

The model covers both through one flag, `fill`: `true` is the modular code
and `false` is the single file.

Modules, one per source file:

- `Shared` (`shared.dfy`): gcd.
- `RealNumbers` (`real_number.dfy`):
  - the datatype `Rat` with pure `Simplify`, `RatAdd`, `RatMul` and `RatDiv`;
  - the class `RealNumber`, whose methods overwrite the object or return a new one.
- `Monomials` (`monomial.dfy`): the value `Term` and the class `Monomial`.
- `TermLists` (`term_lists.dfy`): the pure logic on term arrays.
  - Terms are compared through `Coeff(ts, d)`, the sum of the values of the
    terms of degree `d`.
  - It holds the queries (leading term, trailing term, degree) and insertion.
  - It states the operations as functions: `addMissingTerms`, `add`, `addPol`,
    `mul` and `mulPol`.
- `Polynomials` (`polynomial.dfy`): the class `Polynomial`. Its methods update
  `terms` in place or return a fresh copy, as the source's `inPlace` option
  says, and each is proved against the functions of `TermLists`.
- `Parsing` (`parsing.dfy`): the tokenizer loop and a recognizer for the term
  pattern of `buildFromString`.
- `Division` (`division.dfy`): `longDivision` as a method with its loop.
  - It is proved to return a record whose quotient and remainder satisfy the
    division identity at every degree.
  - The remainder's degree is below the divisor's.
  - Every recorded step is the step the code performs.
- `DefaultExample` (`default_example.dfy`): the page's default inputs worked
  through `src/logic.ts`. The two default strings are tokenized, parsed and
  built into the term lists the division starts from. Any record a
  successful division returns has quotient `4x^2 + 2x` and remainder
  `-7x + 1`.

Fractions are Dafny `real` values (exact rationals) paired with the
numerator/denominator datatype the code manipulates. Integers are unbounded.

The code gives `4x^2 + 2x` with remainder `-7x + 1`
(`DefaultExample.DefaultDivision`).

## Model

| member | source | states |
|---|---|---|
| Shared.GcdZeroIff | src/logic/shared.ts:1-7 | gcd is 0 exactly when both arguments are 0 |
| Shared.GcdDivides | src/logic/shared.ts:1-7 | the result divides both arguments |
| Shared.GcdGreatest | src/logic/shared.ts:1-7 | every common divisor of the arguments divides the result |
| Shared.GcdSymmetric | src/logic/shared.ts:2-4 | the result is the same for swapped or negated arguments |
| Shared.GcdZeroRight | src/logic/shared.ts:5 | gcd(a, 0) is the absolute value of a |
| RealNumbers.Simplify | src/logic/realNumber.ts:12-18 | the reduced fraction has the same value, the same sign and a positive denominator when the input's was; 0 reduces to 0/1 |
| RealNumbers.SimplifyLowest | src/logic/realNumber.ts:12-18 | the reduced fraction has no common factor other than 1, except for 0/0 |
| RealNumbers.RatAdd | src/logic/realNumber.ts:20-34 | the value is the sum of the values; positive denominators stay positive; a zero sum is exactly 0/1 |
| RealNumbers.RatAddLowest | src/logic/realNumber.ts:20-34 | the sum is in lowest terms |
| RealNumbers.RatMul | src/logic/realNumber.ts:36-49 | the value is the product of the values; the numerator is 0 exactly when a factor's is |
| RealNumbers.RatMulLowest | src/logic/realNumber.ts:36-49 | the product is in lowest terms |
| RealNumbers.Reciprocal | src/logic/realNumber.ts:52-58 | the swapped fraction has value 1/b and a positive denominator; a zero numerator gives a zero denominator |
| RealNumbers.RatDiv | src/logic/realNumber.ts:51-60 | the value is the quotient of the values; a zero divisor gives a zero denominator; the result is 0 exactly when the dividend is |
| RealNumbers.RatDivLowest | src/logic/realNumber.ts:51-60 | the quotient is in lowest terms |
| RealNumbers.RealNumber.constructor | src/logic/realNumber.ts:7-10 | the object holds the given numerator and denominator |
| RealNumbers.RealNumber.Add | src/logic/realNumber.ts:20-34 | in place the object becomes the reduced sum and nothing is returned; otherwise a fresh object holds the sum |
| RealNumbers.RealNumber.Mul | src/logic/realNumber.ts:36-49 | in place the object becomes the reduced product; otherwise a fresh object holds it |
| RealNumbers.RealNumber.Div | src/logic/realNumber.ts:51-60 | in place the object becomes the quotient; otherwise the object is unchanged and nothing comes back |
| Monomials.TermDiv | src/logic/monomial.ts:13-18 | degrees subtract; the coefficient is the quotient of the coefficients and is 0 exactly when the dividend's is |
| Monomials.Monomial.constructor | src/logic/monomial.ts:8-11 | the object holds the given coefficient object and degree |
| Monomials.Monomial.Clone | src/logic/monomial.ts:14 | a fresh monomial over a fresh coefficient with the same value |
| Monomials.Monomial.Div | src/logic/monomial.ts:13-18 | in place this monomial becomes the quotient; otherwise a fresh copy holds it and this one is unchanged |
| TermLists.FindIndex | src/logic/polynomial.ts:118 | the index found is the first term of that degree; none exactly when no term has it |
| TermLists.FindTerm | src/logic/polynomial.ts:157-159 | a term is found exactly when one of that degree exists, and it is one of the terms |
| TermLists.FindTermCoeff | src/logic/polynomial.ts:157-159 | on a sorted list the found term's value is the coefficient of that degree, and a missing degree has coefficient 0 |
| TermLists.NonZeroTerms | src/logic/polynomial.ts:153-155 | the filtered list is no longer than the input and empty exactly when every term is zero |
| TermLists.NonZeroMembers | src/logic/polynomial.ts:153-155 | a term survives the filter exactly when it is in the list and non-zero; nothing is dropped exactly when no term is zero |
| TermLists.NonZeroAppend | src/logic/polynomial.ts:153-155 | filtering distributes over concatenation |
| TermLists.LeadingTerm | src/logic/polynomial.ts:161-163 | the first term with a non-zero numerator, or none |
| TermLists.LeadingSome | src/logic/polynomial.ts:161-163 | a leading term exists exactly when some term is non-zero, and it is one of the terms |
| TermLists.TrailingTerm | src/logic/polynomial.ts:165-168 | the last term with a non-zero numerator, or none |
| TermLists.TrailingTermAsWritten | src/logic.ts:242-244 | whatever it returns is a non-zero term of the list |
| TermLists.TrailingAsWritten | src/logic.ts:242-244 | it agrees with the last non-zero term exactly when no term is zero or every term is |
| TermLists.TrailingAsWrittenMisses | src/logic.ts:242-244 | for x^2 + 0x + 1 it returns nothing while the last non-zero term is 1 |
| TermLists.Degree | src/logic/polynomial.ts:170-173 | the degree of the first non-zero term, 0 when there is none |
| TermLists.DegreeCoeff | src/logic/polynomial.ts:170-173 | on a sorted list the degree is the highest power with a non-zero coefficient, which is the leading term's value |
| TermLists.DegreeBelow | src/logic/polynomial.ts:170-173 | if every power from a bound up has coefficient 0, the list is zero or its degree is below the bound |
| TermLists.InsertionIndex | src/logic/polynomial.ts:80-103 | the position appendTerm picks: before the first smaller degree, except that with one term of the same degree it goes first |
| TermLists.InsertedSorted | src/logic/polynomial.ts:79-113 | inserting a new degree keeps the list sorted, and the result is the old terms plus the new one |
| TermLists.InsertedCoeff | src/logic/polynomial.ts:79-113 | insertion adds the term's value to its degree's coefficient and changes no other |
| TermLists.Gap | src/logic/polynomial.ts:70-74 | the zero terms of every degree strictly between two degrees, highest first |
| TermLists.FilledShape | src/logic/polynomial.ts:64-77 | after filling a sorted list no degree is skipped and the first and last degrees are unchanged |
| TermLists.FilledCoeff | src/logic/polynomial.ts:64-77 | filling changes no coefficient |
| TermLists.FilledMembers | src/logic/polynomial.ts:64-77 | filling keeps every term and adds only zero terms 0/1 |
| TermLists.FilledNonZero | src/logic/polynomial.ts:64-77 | filling leaves the non-zero terms as they were |
| TermLists.FilledContiguous | src/logic/polynomial.ts:64-77 | a list without gaps is left unchanged |
| TermLists.AddTermCoeff | src/logic/polynomial.ts:115-126 | add raises the coefficient of the term's degree by the term's value and changes no other |
| TermLists.AddTermSorted | src/logic/polynomial.ts:115-126 | add keeps a sorted list sorted, and gap-free when filling |
| TermLists.AddTermDens | src/logic/polynomial.ts:115-126 | add keeps every denominator positive |
| TermLists.AddTermDegrees | src/logic/polynomial.ts:115-126 | add introduces no degree below both the list's and the term's |
| TermLists.AddAllCoeff | src/logic/polynomial.ts:139-144 | addPol adds the two polynomials, coefficient by coefficient |
| TermLists.AddAllShape | src/logic/polynomial.ts:139-144 | addPol keeps the list sorted with positive denominators, and gap-free when filling |
| TermLists.AddAllDegrees | src/logic/polynomial.ts:139-144 | addPol introduces no degree below both operands' lowest degrees |
| TermLists.ScaledCoeff | src/logic/polynomial.ts:128-137 | mul multiplies the polynomial by the monomial: coefficient d becomes v times coefficient d - k |
| TermLists.ScaledShape | src/logic/polynomial.ts:128-137 | mul raises every degree by the same amount, keeps sortedness, gap-freeness and positive denominators, and keeps zero terms zero |
| TermLists.MulAllSnoc | src/logic/polynomial.ts:146-151 | mulPol multiplies the polynomial by each term of the argument in turn, so one more term is one more mul |
| TermLists.MulAllDens | src/logic/polynomial.ts:146-151 | mulPol keeps denominators positive |
| TermLists.MulAllIsNotProduct | src/logic/polynomial.ts:146-151 | mulPol of x + 1 by x + 1 has constant term 0, while the product has constant term 1 |
| TermLists.ProductSnoc | src/logic/polynomial.ts:146-151 | the product with one more term q grows by the polynomial times q, at every degree |
| TermLists.ProductAppend | src/logic/polynomial.ts:146-151 | the product is additive in its second factor |
| TermLists.ProductOfZeros | src/logic/polynomial.ts:146-151 | zero terms of the second factor contribute nothing |
| Parsing.Tokenize | src/logic/polynomial.ts:27-39 | the loop produces the tokens of the expression |
| Parsing.TokensConcat | src/logic/polynomial.ts:27-39 | joined back together, the tokens spell the expression without the spaces after its first character |
| Parsing.TokensShape | src/logic/polynomial.ts:27-39 | the first token starts with the first character; every later token starts with a sign; no token has a sign or space after its first character |
| Parsing.LexSound | src/logic/polynomial.ts:41-45 | a recognised token is exactly a sign, digits, x and an optional ^digits, spelled back |
| Parsing.LexComplete | src/logic/polynomial.ts:41-45 | every token of that form is recognised, with those parts |
| Parsing.ParseTerm | src/logic/polynomial.ts:41-57 | a token gives a term exactly when it matches the pattern; the term is whole-numbered with a degree of at least 0 |
| Parsing.ParseAll | src/logic/polynomial.ts:43-59 | every token parses, or the build fails; the terms come in token order |
| Parsing.ParseTermText | src/logic/polynomial.ts:46-57 | the text c x^e parses to the term c x^e |
| Parsing.ParseBareSign | src/logic/polynomial.ts:49-56 | a lone + or - is the constant 1 or -1 |
| Parsing.ParseMinusX | src/logic/polynomial.ts:41-56 | -X (upper case) is -1 x^1 |
| Parsing.ParsePowerWithoutX | src/logic/polynomial.ts:41-56 | 5^3 is accepted and reads as 5 x^3 |
| Parsing.ParseRejects | src/logic/polynomial.ts:41-45 | x^ and 2y are rejected |
| Polynomials.Polynomial.constructor | src/logic/polynomial.ts:17-19 | the object holds the given terms |
| Polynomials.Polynomial.Copy | src/logic/polynomial.ts:206-208 | a fresh polynomial with the same terms |
| Polynomials.Polynomial.BuildFromString | src/logic/polynomial.ts:25-62 | fails with "Bad input" exactly when the expression is empty or a token does not parse; otherwise the tokens' terms added in order, sorted, whole-numbered, non-negative degrees, gap-free when filling |
| Polynomials.BuiltWellFormed | src/logic/polynomial.ts:57-58 | adding parsed terms to an empty polynomial gives a well-formed list with the same coefficients |
| Polynomials.Polynomial.AppendTerm | src/logic/polynomial.ts:79-113 | the terms become the old terms with the new one inserted where appendTerm puts it |
| Polynomials.Polynomial.AddMissingTerms | src/logic/polynomial.ts:64-77 | the terms become the filled list |
| Polynomials.Polynomial.Add | src/logic/polynomial.ts:115-126 | in place the terms become the added list; without inPlace a merge changes this object and returns an unchanged copy, while an insertion changes only the copy |
| Polynomials.Polynomial.Mul | src/logic/polynomial.ts:128-137 | in place the terms are scaled by the term; otherwise a fresh polynomial holds the scaled terms and this one is unchanged |
| Polynomials.Polynomial.AddPol | src/logic/polynomial.ts:139-144 | in place the terms become the sum; otherwise a fresh polynomial holds it and this one is unchanged |
| Polynomials.Polynomial.MulPol | src/logic/polynomial.ts:146-151 | in place the terms are multiplied by each argument term in turn; otherwise a fresh polynomial holds that |
| Division.StepRemainderCoeff | src/logic/division.ts:31-32 | the new remainder's coefficient at every degree is the old one minus the product's |
| Division.StepCancels | src/logic/division.ts:29-32 | the step cancels the leading coefficient: the new remainder is zero or of smaller degree |
| Division.QuotientEnds | src/logic/division.ts:29-30 | after add, the quotient's trailing term is the new quotient term, in both versions of getTrailingTerm |
| Division.StepIdentity | src/logic/division.ts:28-32 | if the dividend equals divisor times quotient plus remainder before a step, it still does after it |
| Division.StepKeepsInv | src/logic/division.ts:38-44 | a step keeps the identity, the quotient's sortedness and gap-freeness, and the degree bound that keeps degrees from going negative |
| Division.RunExtend | src/logic/division.ts:46-47 | pushing a step's product and remainder extends the record of steps |
| Division.Step | src/logic/division.ts:39-44 | a step adds the quotient term in place, returns the product and the new remainder, and keeps the invariant |
| Division.LongDivision | src/logic/division.ts:13-53 | fails exactly when the dividend or the divisor is zero or the divisor is constant; otherwise the identity holds, the remainder is zero or of lower degree than the divisor, and the steps are those the loop takes; with fill off the same holds for the copy in src/logic.ts (lines 295-336), whose quotient then has no zero term |
| DefaultExample.Step1 | src/logic.ts:309-319 | the first step on the page's defaults: quotient term 4x^2, product 8x^4 - 4x^3 + 8x^2, remainder 4x^3 - 2x^2 - 3x + 1 |
| DefaultExample.Step2 | src/logic.ts:321-331 | the second step: quotient term 2x, product 4x^3 - 2x^2 + 4x, remainder -7x + 1 |
| TermLists.AddAllInOrder | src/logic.ts:139-195 | without filling, building from terms that come highest degree first gives those terms, in order |
| Parsing.ParseAllIs | src/logic/polynomial.ts:43-59 | tokens that each read as a term give exactly those terms, in token order |
| Parsing.TokenStep | src/logic/polynomial.ts:27-39 | characters that are neither spaces nor signs join the current token, and the next sign closes it |
| DefaultExample.DefaultsParse | src/App.tsx:6-7 | building the default strings 8x^4+0x^3+6x^2-3x+1 and 2x^2-x+2 without filling succeeds and gives the five terms of degrees 4 to 0, with an explicit zero at degree 3, and the three terms of degrees 2 to 0 |
| DefaultExample.DefaultDivision | src/logic.ts:295-336 | every successful division of those term lists has quotient 4x^2 + 2x, remainder -7x + 1 and exactly the two steps Step1 and Step2 |
| DefaultExample.DefaultPage | src/App.tsx:6-15 | every successful division of the two default strings, as the page builds and divides them, has quotient 4x^2 + 2x, remainder -7x + 1 and those two steps |

## Left out

- Rendering: `getKatex`, `getKatexLongDivision` and the React page are drawing code with no logic.
- The source's IEEE doubles become unbounded `int` and exact rationals; precision loss beyond 2^53 is not modelled. For 0/0, `simplify` divides by a gcd of 0 and gets NaN; the model keeps 0/0, which has value 0.
- The options objects and their spreading (`getOptions`, `defaultOptions`) become the booleans `inPlace` and `fill`.
- The regular expression of `buildFromString` is replaced by an equivalent recognizer, `Parsing.Lex`. `Number(...)` on its captures is replaced by digit arithmetic.
- Aliasing of monomial objects is not modelled. The source inserts the caller's monomial object into `terms`, so a later in-place change to it changes both. The model stores term values.
- `Polynomial.AddPol` and `Polynomial.MulPol` with a polynomial that is this object are not modelled in place.
- lodash `cloneDeep` is a value copy.
- `Division.LongDivision` works on term values. The division step uses `Monomials.TermDiv` where the source calls `Monomial.div` on the objects.
- `Division.Process` holds term lists where the source's record holds `Polynomial` objects.
- `Division.LongDivision`: the source throws a TypeError when it reads a missing leading term; the model returns `Failure(UndefinedLeadingTerm)`.
- `Division.LongDivision` requires well-formed inputs: sorted, positive denominators, no negative degree. That is what `buildFromString` produces; arbitrary term arrays are not covered.
- `Polynomials.Polynomial.AddMissingTerms` requires sorted terms. On unsorted terms the source's walk is not modelled.
- `Polynomials.Polynomial.Add` and `Polynomials.Polynomial.AddPol` require sorted terms when filling, for the same reason.
- The single-file `src/logic.ts` is not a separate set of members. Its classes repeat the modular ones, and the flag `fill == false` selects its `add`. `TermLists.TrailingTermAsWritten` is its `getTrailingTerm`.

## Findings

| source | as written | input that shows it | evidently intended | confidence | as-written member | corrected member |
|---|---|---|---|---|---|---|
| src/logic.ts:242-244 | the non-zero terms are indexed with the length of the whole list minus one | x^2 + 0x + 1: the index 2 is past the two non-zero terms, so the result is undefined, not 1 | the last non-zero term, as src/logic/polynomial.ts:165-168 computes it | medium, not executed; inside the division the quotient never has a zero term in this version, so the result there is right (`Division.QuotientEnds`) | TermLists.TrailingAsWrittenMisses | TermLists.TrailingTerm |
| src/logic/polynomial.ts:146-151 | mulPol multiplies the polynomial by each term of the argument in turn | (x + 1) mulPol (x + 1) gives x^2 + x, the value of (x + 1)·x·1 | the product of the two polynomials, the sum of the polynomial times each term | medium, not executed; nothing in the division calls mulPol | TermLists.MulAllIsNotProduct | TermLists.ProductSnoc |
