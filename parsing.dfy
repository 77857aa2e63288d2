/**
 * The text front end of buildFromString (src/logic/polynomial.ts:25-62,
 * src/logic.ts:123-159): a tokenizer that cuts the expression before every
 * sign, and a recognizer for one term `[+-]? digits* x? (^ digits)?` with
 * `x` in either case. The regular expression of the source becomes the
 * recognizer `Lex`; its capture groups are the fields of a `Lexeme`.
 */
module Parsing {
  import opened Wrappers
  import opened RealNumbers
  import opened Monomials

  predicate IsSign(c: char) {
    c == '+' || c == '-'
  }

  // ----- Tokenizer ----------------------------------------------------------

  /**
   * The tokens the loop produces from the current token `term` and the
   * characters not yet read: a space is skipped, a sign closes the current
   * token and starts the next, anything else joins the current token.
   */
  function TokensFrom(term: string, rest: string): (r: seq<string>)
    ensures |r| >= 1
    decreases |rest|
  {
    if rest == [] then [term]
    else if rest[0] == ' ' then TokensFrom(term, rest[1..])
    else if IsSign(rest[0]) then [term] + TokensFrom([rest[0]], rest[1..])
    else TokensFrom(term + [rest[0]], rest[1..])
  }

  /** The first character seeds the first token, whatever it is. */
  function Tokens(expression: string): seq<string>
    requires |expression| > 0
  {
    TokensFrom(expression[..1], expression[1..])
  }

  method Tokenize(expression: string) returns (terms: seq<string>)
    requires |expression| > 0
    ensures terms == Tokens(expression)
  {
    terms := [];
    var term := expression[..1];
    var i := 1;
    while i < |expression|
      invariant 1 <= i <= |expression|
      invariant terms + TokensFrom(term, expression[i..]) == Tokens(expression)
    {
      var ch := expression[i];
      assert expression[i..][1..] == expression[i + 1..];
      if ch == ' ' {
        i := i + 1;
        continue;
      }
      if IsSign(ch) {
        terms := terms + [term];
        term := [ch];
      } else {
        term := term + [ch];
      }
      i := i + 1;
    }
    terms := terms + [term];
  }

  function Concat(ss: seq<string>): string {
    if ss == [] then "" else ss[0] + Concat(ss[1..])
  }

  function NoSpaces(s: string): string {
    if s == [] then "" else (if s[0] == ' ' then "" else [s[0]]) + NoSpaces(s[1..])
  }

  /** Joined back together, the tokens spell the expression without the spaces after its first character. */
  lemma TokensConcat(expression: string)
    requires |expression| > 0
    ensures Concat(Tokens(expression)) == expression[..1] + NoSpaces(expression[1..])
  {
    TokensFromConcat(expression[..1], expression[1..]);
  }

  lemma {:induction false} TokensFromConcat(term: string, rest: string)
    ensures Concat(TokensFrom(term, rest)) == term + NoSpaces(rest)
    decreases |rest|
  {
    hide *;
    TokensFromUnfold(term, rest);
    if rest == [] {
      ConcatCons(term, []);
      assert [term] + [] == [term];
      ConcatEmpty();
      NoSpacesUnfold(rest);
      assert term + "" == term;
    } else {
      var c := rest[0];
      NoSpacesUnfold(rest);
      if c == ' ' {
        TokensFromConcat(term, rest[1..]);
      } else if IsSign(c) {
        TokensFromConcat([c], rest[1..]);
        ConcatCons(term, TokensFrom([c], rest[1..]));
        assert term + ([c] + NoSpaces(rest[1..])) == term + [c] + NoSpaces(rest[1..]);
      } else {
        TokensFromConcat(term + [c], rest[1..]);
        assert term + [c] + NoSpaces(rest[1..]) == term + ([c] + NoSpaces(rest[1..]));
      }
    }
  }

  lemma TokensFromUnfold(term: string, rest: string)
    ensures rest == [] ==> TokensFrom(term, rest) == [term]
    ensures rest != [] && rest[0] == ' ' ==> TokensFrom(term, rest) == TokensFrom(term, rest[1..])
    ensures rest != [] && IsSign(rest[0]) ==> TokensFrom(term, rest) == [term] + TokensFrom([rest[0]], rest[1..])
    ensures rest != [] && rest[0] != ' ' && !IsSign(rest[0]) ==>
      TokensFrom(term, rest) == TokensFrom(term + [rest[0]], rest[1..])
  {
  }

  /** A run of characters that are neither spaces nor signs joins the current token. */
  lemma {:induction false} TokensFromRun(term: string, run: string, rest: string)
    requires forall i :: 0 <= i < |run| ==> run[i] != ' ' && !IsSign(run[i])
    ensures TokensFrom(term, run + rest) == TokensFrom(term + run, rest)
    decreases |run|
  {
    hide *;
    if run == [] {
      assert run + rest == rest && term + run == term;
    } else {
      TokensFromUnfold(term, run + rest);
      assert (run + rest)[0] == run[0] && (run + rest)[1..] == run[1..] + rest;
      assert forall i :: 0 <= i < |run[1..]| ==> run[1..][i] == run[i + 1];
      TokensFromRun(term + [run[0]], run[1..], rest);
      assert term + [run[0]] + run[1..] == term + run;
    }
  }

  /** A run of plain characters, then a sign: one finished token. */
  lemma TokenStep(term: string, run: string, c: char, rest: string, text: string)
    requires forall i :: 0 <= i < |run| ==> run[i] != ' ' && !IsSign(run[i])
    requires IsSign(c) && text == run + [c] + rest
    ensures TokensFrom(term, text) == [term + run] + TokensFrom([c], rest)
  {
    hide *;
    assert text == run + ([c] + rest);
    TokensFromRun(term, run, [c] + rest);
    TokensFromSign(term + run, c, rest);
  }

  /** A last run of plain characters: the last token. */
  lemma TokenLast(term: string, run: string)
    requires forall i :: 0 <= i < |run| ==> run[i] != ' ' && !IsSign(run[i])
    ensures TokensFrom(term, run) == [term + run]
  {
    hide *;
    assert run == run + [];
    TokensFromRun(term, run, []);
    TokensFromUnfold(term + run, []);
  }

  lemma TokensUnfold(expression: string)
    requires |expression| > 0
    ensures Tokens(expression) == TokensFrom(expression[..1], expression[1..])
  {
  }

  /** A sign closes the current token and starts the next one. */
  lemma TokensFromSign(term: string, c: char, rest: string)
    requires IsSign(c)
    ensures TokensFrom(term, [c] + rest) == [term] + TokensFrom([c], rest)
  {
    hide *;
    TokensFromUnfold(term, [c] + rest);
    assert ([c] + rest)[0] == c && ([c] + rest)[1..] == rest;
  }

  lemma NoSpacesUnfold(s: string)
    ensures s == [] ==> NoSpaces(s) == ""
    ensures s != [] ==> NoSpaces(s) == (if s[0] == ' ' then "" else [s[0]]) + NoSpaces(s[1..])
  {
  }

  lemma ConcatCons(t: string, ts: seq<string>)
    ensures Concat([t] + ts) == t + Concat(ts)
  {
    assert ([t] + ts)[1..] == ts;
  }

  lemma ConcatEmpty()
    ensures Concat([]) == ""
  {
  }

  /** No sign and no space occurs at index 1 or later of a token. */
  predicate Plain(s: string) {
    forall k :: 1 <= k < |s| ==> !IsSign(s[k]) && s[k] != ' '
  }

  /**
   * Every token after the first is a sign followed by plain characters; the
   * first token begins with the expression's first character. With
   * TokensConcat this determines the tokens.
   */
  lemma TokensShape(expression: string)
    requires |expression| > 0
    ensures var ts := Tokens(expression);
      && |ts[0]| >= 1 && ts[0][0] == expression[0] && Plain(ts[0])
      && forall k :: 1 <= k < |ts| ==> |ts[k]| >= 1 && IsSign(ts[k][0]) && Plain(ts[k])
  {
    TokensFromShape(expression[..1], expression[1..]);
  }

  lemma {:induction false} TokensFromShape(term: string, rest: string)
    requires |term| >= 1 && Plain(term)
    ensures var ts := TokensFrom(term, rest);
      && |ts[0]| >= |term| && ts[0][..|term|] == term && Plain(ts[0])
      && forall k :: 1 <= k < |ts| ==> |ts[k]| >= 1 && IsSign(ts[k][0]) && Plain(ts[k])
    decreases |rest|
  {
    if rest == [] {
      assert term[..|term|] == term;
    } else {
      var c := rest[0];
      if c == ' ' {
        TokensFromShape(term, rest[1..]);
      } else if IsSign(c) {
        TokensFromShape([c], rest[1..]);
        assert term[..|term|] == term;
      } else {
        var t' := term + [c];
        TokensFromShape(t', rest[1..]);
        var r0 := TokensFrom(t', rest[1..])[0];
        assert r0[..|term|] == r0[..|t'|][..|term|];
      }
    }
  }

  // ----- One term -----------------------------------------------------------

  predicate IsDigit(c: char) {
    '0' <= c <= '9'
  }

  predicate AllDigits(s: string) {
    forall k :: 0 <= k < |s| ==> IsDigit(s[k])
  }

  /**
   * The capture groups of a matched term: the optional sign, the (possibly
   * empty) digit run, the optional `x`, and the digits after `^` if any.
   */
  datatype Lexeme = Lexeme(sign: string, digits: string, x: string, power: Option<string>)

  predicate ValidLexeme(l: Lexeme) {
    && (l.sign == "" || l.sign == "+" || l.sign == "-")
    && AllDigits(l.digits)
    && (l.x == "" || l.x == "x" || l.x == "X")
    && (l.power.Some? ==> |l.power.value| >= 1 && AllDigits(l.power.value))
  }

  /** The text of a lexeme. */
  function Spell(l: Lexeme): string {
    l.sign + l.digits + l.x + PowerText(l.power)
  }

  /** Length of the run of digits at the start of s. */
  function DigitRun(s: string): (n: nat)
    ensures n <= |s| && AllDigits(s[..n]) && (n < |s| ==> !IsDigit(s[n]))
  {
    if s == [] || !IsDigit(s[0]) then 0
    else
      var n := 1 + DigitRun(s[1..]);
      assert forall k :: 1 <= k < n ==> s[..n][k] == s[1..][..n - 1][k - 1];
      n
  }

  /** Length of the optional sign at the start of s. */
  function SignLen(s: string): (n: nat)
    ensures n <= |s|
  {
    if |s| > 0 && IsSign(s[0]) then 1 else 0
  }

  /** Length of the optional `x` at the start of s. */
  function XLen(s: string): (n: nat)
    ensures n <= |s|
  {
    if |s| > 0 && (s[0] == 'x' || s[0] == 'X') then 1 else 0
  }

  /** The end of a term: nothing (no power), or `^` and digits to the end; None if neither. */
  function PowerOf(s: string): Option<Option<string>> {
    if s == [] then Some(None)
    else if s[0] == '^' && |s| >= 2 && AllDigits(s[1..]) then Some(Some(s[1..]))
    else None
  }

  /**
   * The recognizer: read an optional sign, the longest run of digits, an
   * optional `x`, then either the end or `^` and at least one digit up to
   * the end. The parts of the pattern use disjoint characters, so this
   * longest-match reading is the only way a term can match.
   */
  function Lex(tok: string): Option<Lexeme> {
    var a := SignLen(tok);
    var n := DigitRun(tok[a..]);
    var b := XLen(tok[a + n..]);
    match PowerOf(tok[a + n + b..])
    case None => None
    case Some(p) => Some(Lexeme(tok[..a], tok[a..a + n], tok[a + n..a + n + b], p))
  }

  /** What the recognizer accepts is a valid lexeme, and it spells the token. */
  lemma LexSound(tok: string)
    requires Lex(tok).Some?
    ensures ValidLexeme(Lex(tok).value) && Spell(Lex(tok).value) == tok
  {
    var a := SignLen(tok);
    var n := DigitRun(tok[a..]);
    var b := XLen(tok[a + n..]);
    var rest := tok[a + n + b..];
    assert PowerOf(rest).Some?;
    var p := PowerOf(rest).value;
    LexOfParts(tok, a, n, b, p);
    hide Lex;
    PowerOfSound(rest);
    SignSplit(tok);
    XSplit(tok[a + n..]);
    SliceOfSlice(tok, a, n);
    SliceOfSlice(tok, a + n, b);
    Slices4(tok, a, n, b);
  }

  lemma SliceOfSlice(s: string, i: nat, k: nat)
    requires i + k <= |s|
    ensures s[i..][..k] == s[i..i + k]
  {
  }

  lemma Slices4(s: string, a: nat, n: nat, b: nat)
    requires a + n + b <= |s|
    ensures s == s[..a] + s[a..a + n] + s[a + n..a + n + b] + s[a + n + b..]
  {
    assert s[..a] + s[a..a + n] == s[..a + n];
    assert s[..a + n] + s[a + n..a + n + b] == s[..a + n + b];
  }

  lemma SignSplit(s: string)
    ensures var a := SignLen(s);
      s[..a] == "" || s[..a] == "+" || s[..a] == "-"
  {
    if SignLen(s) == 1 {
      assert s[..1] == [s[0]];
    }
  }

  lemma XSplit(s: string)
    ensures var b := XLen(s);
      s[..b] == "" || s[..b] == "x" || s[..b] == "X"
  {
    if XLen(s) == 1 {
      assert s[..1] == [s[0]];
    }
  }

  function PowerText(p: Option<string>): string {
    if p.Some? then "^" + p.value else ""
  }

  lemma PowerOfSound(s: string)
    requires PowerOf(s).Some?
    ensures PowerText(PowerOf(s).value) == s
    ensures PowerOf(s).value.Some? ==> |PowerOf(s).value.value| >= 1 && AllDigits(PowerOf(s).value.value)
  {
    if s != [] {
      assert s == [s[0]] + s[1..];
    }
  }

  /** Every valid lexeme is recognized from its spelling, with the same parts. */
  lemma LexComplete(l: Lexeme)
    requires ValidLexeme(l)
    ensures Lex(Spell(l)) == Some(l)
  {
    hide *;
    ValidLexemeParts(l);
    var pt := PowerText(l.power);
    var tok := Spell(l);
    var a, n, b := |l.sign|, |l.digits|, |l.x|;
    SpellParts(l);
    PowerOfComplete(l.power);
    XLenOf(l.x, pt);
    NoSignFirst(l.digits, l.x + pt);
    Regroup(l.sign, l.digits, l.x, pt);
    SignLenOf(l.sign, l.digits + l.x + pt);
    DigitRunOf(l.digits, l.x + pt);
    LexOfParts(tok, a, n, b, l.power);
  }

  lemma Regroup(a: string, b: string, c: string, d: string)
    ensures a + b + c + d == a + (b + c + d)
    ensures b + c + d == b + (c + d)
  {
  }

  lemma ValidLexemeParts(l: Lexeme)
    requires ValidLexeme(l)
    ensures l.sign == "" || l.sign == "+" || l.sign == "-"
    ensures AllDigits(l.digits)
    ensures l.x == "" || l.x == "x" || l.x == "X"
    ensures l.power.Some? ==> |l.power.value| >= 1 && AllDigits(l.power.value)
  {
  }

  lemma SpellParts(l: Lexeme)
    ensures var tok, a, n, b := Spell(l), |l.sign|, |l.digits|, |l.x|;
      && tok == l.sign + l.digits + l.x + PowerText(l.power)
      && |tok| == a + n + b + |PowerText(l.power)|
      && tok[..a] == l.sign && tok[a..a + n] == l.digits
      && tok[a + n..a + n + b] == l.x && tok[a + n + b..] == PowerText(l.power)
      && tok[a..] == l.digits + (l.x + PowerText(l.power))
      && tok[a + n..] == l.x + PowerText(l.power)
  {
    var pt := PowerText(l.power);
    assert l.sign + l.digits + l.x + pt == l.sign + (l.digits + (l.x + pt));
  }

  lemma PowerOfComplete(p: Option<string>)
    requires p.Some? ==> |p.value| >= 1 && AllDigits(p.value)
    ensures PowerOf(PowerText(p)) == Some(p)
    ensures PowerText(p) == [] || PowerText(p)[0] == '^'
  {
    if p.Some? {
      assert PowerText(p)[1..] == p.value;
    }
  }

  lemma SignLenOf(sign: string, rest: string)
    requires sign == "" || sign == "+" || sign == "-"
    requires rest == [] || !IsSign(rest[0])
    ensures SignLen(sign + rest) == |sign|
  {
    if sign == "" {
      assert sign + rest == rest;
    }
  }

  lemma XLenOf(x: string, rest: string)
    requires x == "" || x == "x" || x == "X"
    requires rest == [] || rest[0] == '^'
    ensures XLen(x + rest) == |x|
    ensures x + rest == [] || (!IsDigit((x + rest)[0]) && !IsSign((x + rest)[0]))
  {
    if x == "" {
      assert x + rest == rest;
    }
  }

  /** After the sign come digits, `x`, `^` or nothing: no second sign. */
  lemma NoSignFirst(ds: string, rest: string)
    requires AllDigits(ds) && (rest == [] || !IsDigit(rest[0])) && (rest == [] || !IsSign(rest[0]))
    ensures var r := ds + rest; r == [] || !IsSign(r[0])
  {
    if ds == [] {
      assert ds + rest == rest;
    } else {
      assert (ds + rest)[0] == ds[0];
    }
  }

  /** Lex read stage by stage. */
  lemma LexOfParts(tok: string, a: nat, n: nat, b: nat, p: Option<string>)
    requires a + n + b <= |tok|
    requires SignLen(tok) == a && DigitRun(tok[a..]) == n && XLen(tok[a + n..]) == b
    requires PowerOf(tok[a + n + b..]) == Some(p)
    ensures Lex(tok) == Some(Lexeme(tok[..a], tok[a..a + n], tok[a + n..a + n + b], p))
  {
  }

  /** The digit run of digits followed by a non-digit is exactly those digits. */
  lemma {:induction false} DigitRunOf(ds: string, rest: string)
    requires AllDigits(ds) && (rest == [] || !IsDigit(rest[0]))
    ensures DigitRun(ds + rest) == |ds|
    decreases |ds|
  {
    if ds == [] {
      assert ds + rest == rest;
    } else {
      assert (ds + rest)[1..] == ds[1..] + rest;
      DigitRunOf(ds[1..], rest);
    }
  }

  // ----- Values -------------------------------------------------------------

  function DigitValue(c: char): nat
    requires IsDigit(c)
  {
    (c as int - '0' as int) as nat
  }

  /** The number a run of decimal digits denotes (`Number` on a digit string). */
  function DigitsValue(s: string): nat
    requires AllDigits(s)
  {
    if s == [] then 0 else 10 * DigitsValue(s[..|s| - 1]) + DigitValue(s[|s| - 1])
  }

  /**
   * The term a lexeme stands for (src/logic/polynomial.ts:46-57): without
   * digits the coefficient is -1 after "-" and 1 otherwise, so a bare sign is
   * the constant 1 or -1; without a power the degree is 1 after `x` and 0
   * otherwise; a power without `x` is still the degree.
   */
  function LexemeTerm(l: Lexeme): (t: Term)
    requires ValidLexeme(l)
    ensures t.coef.den == 1 && t.degree >= 0
  {
    var magnitude := if l.digits == "" then 1 else DigitsValue(l.digits);
    var coefficient := if l.sign == "-" then -magnitude else magnitude;
    var exponent := if l.power.Some? then DigitsValue(l.power.value) else if l.x != "" then 1 else 0;
    Term(Rat(coefficient, 1), exponent)
  }

  /** One token as a term; None is the source's "Bad input". */
  function ParseTerm(tok: string): (r: Option<Term>)
    ensures r.Some? <==> Lex(tok).Some?
    ensures r.Some? ==> r.value.coef.den == 1 && r.value.degree >= 0
  {
    match Lex(tok)
    case None => None
    case Some(l) =>
      LexSound(tok);
      Some(LexemeTerm(l))
  }

  /** The tokens as terms, or None if one of them is not a term. */
  function ParseAll(toks: seq<string>): (r: Option<seq<Term>>)
    ensures r.Some? <==> forall k :: 0 <= k < |toks| ==> ParseTerm(toks[k]).Some?
    ensures r.Some? ==> |r.value| == |toks|
    ensures r.Some? ==> forall k :: 0 <= k < |toks| ==> r.value[k] == ParseTerm(toks[k]).value
  {
    if toks == [] then Some([])
    else
      var init := toks[..|toks| - 1];
      assert forall k :: 0 <= k < |init| ==> init[k] == toks[k];
      match ParseAll(init)
      case None => None
      case Some(ts) =>
        match ParseTerm(toks[|toks| - 1])
        case None => None
        case Some(t) =>
          ParsedSnoc(toks, ts, t);
          Some(ts + [t])
  }

  /** Tokens that each read as a term give exactly those terms, in order. */
  lemma ParseAllIs(toks: seq<string>, ts: seq<Term>)
    requires |toks| == |ts|
    requires forall k :: 0 <= k < |toks| ==> ParseTerm(toks[k]) == Some(ts[k])
    ensures ParseAll(toks) == Some(ts)
  {
    hide *;
    var r := ParseAll(toks);
    assert forall k :: 0 <= k < |toks| ==> ParseTerm(toks[k]).Some?;
    assert r.Some? && |r.value| == |ts|;
    assert forall k :: 0 <= k < |ts| ==> r.value[k] == ts[k];
    assert r.value == ts;
  }

  lemma ParsedSnoc(toks: seq<string>, ts: seq<Term>, t: Term)
    requires |toks| >= 1 && |ts| == |toks| - 1
    requires forall k :: 0 <= k < |ts| ==> ParseTerm(toks[k]) == Some(ts[k])
    requires ParseTerm(toks[|toks| - 1]) == Some(t)
    ensures |ts + [t]| == |toks|
    ensures forall k :: 0 <= k < |toks| ==> ParseTerm(toks[k]) == Some((ts + [t])[k])
  {
  }

  // ----- Writing a term and reading it back ------------------------------

  function DigitChar(d: nat): (c: char)
    requires d < 10
    ensures IsDigit(c) && DigitValue(c) == d
  {
    ('0' as int + d) as char
  }

  /** The decimal digits of n, most significant first. */
  function NatDigits(n: nat): (s: string)
    ensures |s| >= 1 && AllDigits(s)
  {
    if n < 10 then [DigitChar(n)] else NatDigits(n / 10) + [DigitChar(n % 10)]
  }

  lemma {:induction false} NatDigitsValue(n: nat)
    ensures DigitsValue(NatDigits(n)) == n
  {
    if n >= 10 {
      var s := NatDigits(n);
      assert s[..|s| - 1] == NatDigits(n / 10);
      NatDigitsValue(n / 10);
    }
  }

  /** The text c·x^e with an explicit sign, as a user would type it. */
  function TermText(c: int, e: nat): string {
    Spell(Lexeme(if c < 0 then "-" else "+", NatDigits(if c < 0 then -c else c), "x", Some(NatDigits(e))))
  }

  /** Reading back a written term gives the same coefficient and degree. */
  lemma ParseTermText(c: int, e: nat)
    ensures ParseTerm(TermText(c, e)) == Some(Term(Rat(c, 1), e))
  {
    var m: nat := if c < 0 then -c else c;
    var l := Lexeme(if c < 0 then "-" else "+", NatDigits(m), "x", Some(NatDigits(e)));
    LexComplete(l);
    NatDigitsValue(m);
    NatDigitsValue(e);
  }

  /** A bare sign is the constant 1 or -1. */
  lemma ParseBareSign()
    ensures ParseTerm("+") == Some(Term(Rat(1, 1), 0))
    ensures ParseTerm("-") == Some(Term(Rat(-1, 1), 0))
  {
    var plus, minus := Lexeme("+", "", "", None), Lexeme("-", "", "", None);
    assert Spell(plus) == "+" && Spell(minus) == "-";
    LexComplete(plus);
    LexComplete(minus);
  }

  /** An upper-case X is x, and a missing coefficient after "-" is -1. */
  lemma ParseMinusX()
    ensures ParseTerm("-X") == Some(Term(Rat(-1, 1), 1))
  {
    var l := Lexeme("-", "", "X", None);
    assert Spell(l) == "-X";
    LexComplete(l);
  }

  /** A power without x is still the degree. */
  lemma ParsePowerWithoutX()
    ensures ParseTerm("5^3") == Some(Term(Rat(5, 1), 3))
  {
    var l := Lexeme("", "5", "", Some("3"));
    assert Spell(l) == "5^3";
    LexComplete(l);
    assert DigitsValue("5") == 5 by { assert "5"[..0] == ""; }
    assert DigitsValue("3") == 3 by { assert "3"[..0] == ""; }
  }

  /** A `^` needs digits after it, and no letter other than x is a term. */
  lemma ParseRejects()
    ensures ParseTerm("x^") == None
    ensures ParseTerm("2y") == None
  {
    RejectsBareCaret();
    RejectsOtherLetter();
  }

  lemma RejectsBareCaret()
    ensures ParseTerm("x^") == None
  {
    assert SignLen("x^") == 0 && "x^"[0..] == "x^";
    assert DigitRun("x^") == 0 && "x^"[0..] == "x^";
    assert XLen("x^") == 1 && "x^"[1..] == "^";
    assert PowerOf("^") == None;
  }

  lemma RejectsOtherLetter()
    ensures ParseTerm("2y") == None
  {
    assert SignLen("2y") == 0 && "2y"[0..] == "2y";
    assert DigitRun("2y") == 1 by { assert "2y"[1..] == "y"; }
    assert "2y"[1..] == "y" && XLen("y") == 0 && "y"[0..] == "y";
    assert PowerOf("y") == None;
  }
}
