/**
 * What the model yields for whole equations: the degenerate cases, a linear
 * equation, a degree above 2, and the equation `1 = 0` on which lib.rs
 * divides by zero.
 */
module Examples {
  import opened Results
  import opened Terms
  import opened Reducer
  import opened Solver
  import opened Pipeline
  import Text

  /** Text with neither whitespace nor an '='. */
  predicate Plain(s: string) {
    forall i :: 0 <= i < |s| ==> s[i] != '=' && !Text.IsWhitespace(s[i])
  }

  lemma PlainConcat(a: string, b: string)
    requires Plain(a) && Plain(b)
    ensures Plain(a + b)
  {
    forall i | 0 <= i < |a + b|
      ensures (a + b)[i] != '=' && !Text.IsWhitespace((a + b)[i])
    {
      if i >= |a| {
        assert (a + b)[i] == b[i - |a|];
      }
    }
  }

  /** A written term holds digits, a sign, '.', '*', 'X' and '^' only. */
  lemma RenderPlain(t: Term)
    requires WellFormed(t)
    ensures Plain(Render(t))
  {
    assert Plain(SignText(t.sign));
    assert Plain(t.whole);
    assert Plain(FractionText(t.fraction)) by {
      if t.fraction.Some? {
        assert Plain(".");
        assert Plain(t.fraction.value);
        PlainConcat(".", t.fraction.value);
      }
    }
    assert Plain("*X^");
    assert Plain(t.power);
    PlainConcat(SignText(t.sign), t.whole);
    PlainConcat(SignText(t.sign) + t.whole, FractionText(t.fraction));
    PlainConcat(SignText(t.sign) + t.whole + FractionText(t.fraction), "*X^");
    PlainConcat(SignText(t.sign) + t.whole + FractionText(t.fraction) + "*X^", t.power);
  }

  lemma {:induction false} RenderAllPlain(ts: seq<Term>)
    requires forall i :: 0 <= i < |ts| ==> WellFormed(ts[i])
    ensures Plain(RenderAll(ts))
    decreases |ts|
  {
    if ts != [] {
      RenderPlain(ts[0]);
      RenderAllPlain(ts[1..]);
      PlainConcat(Render(ts[0]), RenderAll(ts[1..]));
    }
  }

  /**
   * An equation written as two sides of terms reduces to the difference of
   * what the sides collect into, and is solved unless its degree is above 2.
   */
  lemma Equation(input: string, lhs: seq<Term>, rhs: seq<Term>)
    requires Side(lhs) && Side(rhs) && input == RenderAll(lhs) + "=" + RenderAll(rhs)
    ensures var m := Subtract(Collect(lhs), Collect(rhs));
      && Degree(m).Some?
      && ReduceResult(Text.Stripped(input)) == (if Degree(m).value > 2 then Err(DegreeAboveTwo) else Ok(m))
      && SolveResult(input) == (if Degree(m).value > 2 then Err(DegreeAboveTwo) else Ok(CalculateCorrected(m)))
  {
    var x, y := RenderAll(lhs), RenderAll(rhs);
    EquationText(input, lhs, rhs);
    Text.StrippedIdentity(input);
    ScanComplete(lhs);
    ScanComplete(rhs);
    SplitAtFirst(x, y);
    ParseSideNonEmpty(x);
    SubtractNonEmpty(Collect(lhs), Collect(rhs));
  }

  /** The text of such an equation holds no whitespace, and its left side no '='. */
  lemma EquationText(input: string, lhs: seq<Term>, rhs: seq<Term>)
    requires Side(lhs) && Side(rhs) && input == RenderAll(lhs) + "=" + RenderAll(rhs)
    ensures '=' !in RenderAll(lhs)
    ensures forall i :: 0 <= i < |input| ==> !Text.IsWhitespace(input[i])
  {
    var x, y := RenderAll(lhs), RenderAll(rhs);
    RenderAllPlain(lhs);
    RenderAllPlain(rhs);
    assert Plain(x) && Plain(y);
    assert '=' !in x;
    forall i | 0 <= i < |input|
      ensures !Text.IsWhitespace(input[i])
    {
      if i < |x| {
        assert input[i] == x[i];
      } else if i > |x| {
        assert input[i] == y[i - |x| - 1];
      }
    }
  }

  lemma DigitValue(c: char)
    requires IsDigit(c)
    ensures DigitsValue([c]) == c as int - '0' as int
  {
    assert [c][..0] == [];
  }

  /** A side of one unsigned term, integer digit `w` and power digit `pw`. */
  lemma OneTerm(t: Term, w: char, pw: char)
    requires IsDigit(w) && IsDigit(pw) && t == Term(Unsigned, [w], None, [pw])
    ensures Side([t]) && RenderAll([t]) == [w] + "*X^" + [pw]
    ensures Collect([t]) == map[pw as int - '0' as int := (w as int - '0' as int) as real]
  {
    DigitValue(w);
    DigitValue(pw);
    assert [t][1..] == [];
    assert [t][..0] == [];
  }

  /** Powers 0 and 1 only, b ≠ 0: the one root −c / b. */
  lemma Linear(p: Poly, x: real)
    requires p.Keys == {0, 1} && p[1] != 0.0 && x * p[1] == -p[0]
    ensures CalculateCorrected(p) == One(x)
  {
    assert Coef(p, 2) == 0.0;
    assert !SingleZero(p);
  }

  /** Powers 0 and 2 only, a ≠ 0, positive discriminant: two roots. */
  lemma Quadratic(p: Poly, c: real, a: real, delta: real)
    requires p.Keys == {0, 2} && p[0] == c && p[2] == a && a != 0.0
    requires delta == Discriminant(a, 0.0, c) && delta > 0.0
    ensures CalculateCorrected(p) == Two(a, 0.0, delta)
  {
    assert Coef(p, 1) == 0.0;
    assert !SingleZero(p);
  }

  /** Power 0 only with a non-zero value: as written a division by zero, corrected no solution. */
  lemma Constant(p: Poly)
    requires p.Keys == {0} && p[0] != 0.0
    ensures Calculate(p) == DividedByZero && CalculateCorrected(p) == NoSolution
  {
    assert !SingleZero(p);
  }

  /** The value of a decimal digit. */
  function Val(c: char): int {
    c as int - '0' as int
  }

  /** An equation `w*X^pw=w'*X^pw'` of one-digit numbers, reduced and solved. */
  lemma SimpleEquation(input: string, w: char, pw: char, w': char, pw': char)
    requires IsDigit(w) && IsDigit(pw) && IsDigit(w') && IsDigit(pw')
    requires input == [w] + "*X^" + [pw] + "=" + [w'] + "*X^" + [pw']
    ensures var m := Subtract(map[Val(pw) := Val(w) as real], map[Val(pw') := Val(w') as real]);
      && Degree(m).Some?
      && ReduceResult(Text.Stripped(input)) == (if Degree(m).value > 2 then Err(DegreeAboveTwo) else Ok(m))
      && SolveResult(input) == (if Degree(m).value > 2 then Err(DegreeAboveTwo) else Ok(CalculateCorrected(m)))
  {
    var l := Term(Unsigned, [w], None, [pw]);
    var r := Term(Unsigned, [w'], None, [pw']);
    OneTerm(l, w, pw);
    OneTerm(r, w', pw');
    assert input == RenderAll([l]) + "=" + RenderAll([r]);
    assert Collect([l]) == map[Val(pw) := Val(w) as real];
    assert Collect([r]) == map[Val(pw') := Val(w') as real];
    Equation(input, [l], [r]);
  }

  /** `0*X^0=0*X^0`: every real is a solution. */
  lemma ZeroEqualsZero(input: string)
    requires input == "0*X^0=0*X^0"
    ensures SolveResult(input) == Ok(AllReals)
  {
    SimpleEquation(input, '0', '0', '0', '0');
    var m := Subtract(map[0 := 0.0], map[0 := 0.0]);
    assert m.Keys == {0} && m[0] == 0.0;
    assert SingleZero(m);
  }

  /**
   * `1*X^0=0*X^0` reduces to the constant 1: as written the solver divides
   * by the zero coefficient of X^1, corrected it reports no solution.
   */
  lemma OneEqualsZero(input: string)
    requires input == "1*X^0=0*X^0"
    ensures ReduceResult(Text.Stripped(input)).Ok?
    ensures var p := ReduceResult(Text.Stripped(input)).value;
      p.Keys == {0} && p[0] == 1.0 && Calculate(p) == DividedByZero
    ensures SolveResult(input) == Ok(NoSolution)
  {
    SimpleEquation(input, '1', '0', '0', '0');
    var m := Subtract(map[0 := 1.0], map[0 := 0.0]);
    assert m.Keys == {0} && m[0] == 1.0;
    Constant(m);
  }

  /** `2*X^1=0*X^0`: the single root 0. */
  lemma TwoXEqualsZero(input: string)
    requires input == "2*X^1=0*X^0"
    ensures SolveResult(input) == Ok(One(0.0))
  {
    SimpleEquation(input, '2', '1', '0', '0');
    var m := Subtract(map[1 := 2.0], map[0 := 0.0]);
    assert m.Keys == {0, 1} && m[0] == 0.0 && m[1] == 2.0;
    Linear(m, 0.0);
  }

  /** `1*X^2=4*X^0`: two roots, 2 and then -2, from a discriminant of 16. */
  lemma SquareEqualsFour(input: string)
    requires input == "1*X^2=4*X^0"
    ensures SolveResult(input) == Ok(Two(1.0, 0.0, 16.0))
    ensures PlusRoot(1.0, 0.0, 4.0) == 2.0 && MinusRoot(1.0, 0.0, 4.0) == -2.0
  {
    SimpleEquation(input, '1', '2', '4', '0');
    var m := Subtract(map[2 := 1.0], map[0 := 4.0]);
    assert m.Keys == {0, 2} && m[0] == -4.0 && m[2] == 1.0;
    Quadratic(m, -4.0, 1.0, 16.0);
  }

  /** `1*X^3=0*X^0` is refused for its degree. */
  lemma CubeRefused(input: string)
    requires input == "1*X^3=0*X^0"
    ensures SolveResult(input) == Err(DegreeAboveTwo)
  {
    SimpleEquation(input, '1', '3', '0', '0');
    var m := Subtract(map[3 := 1.0], map[0 := 0.0]);
    assert 3 in m;
  }

  /** A term of one-digit numbers with any sign: its text, power and signed coefficient. */
  lemma DigitTerm(t: Term, sign: Sign, w: char, pw: char)
    requires IsDigit(w) && IsDigit(pw) && t == Term(sign, [w], None, [pw])
    ensures WellFormed(t) && Render(t) == SignText(sign) + [w] + "*X^" + [pw]
    ensures Power(t) == Val(pw)
    ensures Coefficient(t) == if sign == Minus then -(Val(w) as real) else Val(w) as real
  {
    DigitValue(w);
    DigitValue(pw);
  }

  /** Three terms are rendered one after the other and inserted in order. */
  lemma ThreeTerms(t0: Term, t1: Term, t2: Term)
    requires WellFormed(t0) && WellFormed(t1) && WellFormed(t2)
    ensures RenderAll([t0, t1, t2]) == Render(t0) + Render(t1) + Render(t2)
    ensures Collect([t0, t1, t2]) == map[Power(t0) := Coefficient(t0)][Power(t1) := Coefficient(t1)][Power(t2) := Coefficient(t2)]
  {
    var ts := [t0, t1, t2];
    assert ts[1..] == [t1, t2] && ts[1..][1..] == [t2] && [t2][1..] == [];
    assert ts[..2] == [t0, t1] && ts[..2][..1] == [t0] && [t0][..0] == [];
    assert RenderAll([t2]) == Render(t2) + RenderAll([]);
    assert RenderAll([t1, t2]) == Render(t1) + Render(t2);
    assert Collect([t0]) == map[Power(t0) := Coefficient(t0)];
    assert Collect([t0, t1]) == Collect([t0])[Power(t1) := Coefficient(t1)];
  }

  /**
   * `8*X^0-6*X^1+0*X^2=3*X^0`: signed later terms and a zero coefficient of
   * X^2 reduce to 5 − 6x + 0x², of degree 2, whose one root is 5/6.
   */
  lemma SignedTermsEquation(input: string)
    requires input == "8*X^0-6*X^1+0*X^2=3*X^0"
    ensures ReduceResult(Text.Stripped(input)) == Ok(map[0 := 5.0, 1 := -6.0, 2 := 0.0])
    ensures SolveResult(input) == Ok(One(5.0 / 6.0))
  {
    var lhs := SignedTermsLeft();
    var r0 := Term(Unsigned, "3", None, "0");
    OneTerm(r0, '3', '0');
    assert input == RenderAll(lhs) + "=" + RenderAll([r0]);
    SignedTermsSolved(input, lhs, [r0]);
  }

  /** The left side `8*X^0-6*X^1+0*X^2` as a term list: signed later terms, a zero coefficient of X^2. */
  lemma SignedTermsLeft() returns (lhs: seq<Term>)
    ensures Side(lhs) && RenderAll(lhs) == "8*X^0-6*X^1+0*X^2"
    ensures Collect(lhs) == map[0 := 8.0][1 := -6.0][2 := 0.0]
  {
    var t0, t1, t2 := Term(Unsigned, "8", None, "0"), Term(Minus, "6", None, "1"), Term(Plus, "0", None, "2");
    DigitTerm(t0, Unsigned, '8', '0');
    DigitTerm(t1, Minus, '6', '1');
    DigitTerm(t2, Plus, '0', '2');
    ThreeTerms(t0, t1, t2);
    lhs := [t0, t1, t2];
  }

  /** Sides collecting into {0: 8, 1: −6, 2: 0} and {0: 3} leave 5 − 6x, whose root is 5/6. */
  lemma SignedTermsSolved(input: string, lhs: seq<Term>, rhs: seq<Term>)
    requires Side(lhs) && Side(rhs) && input == RenderAll(lhs) + "=" + RenderAll(rhs)
    requires Collect(lhs) == map[0 := 8.0][1 := -6.0][2 := 0.0] && Collect(rhs) == map[0 := 3.0]
    ensures ReduceResult(Text.Stripped(input)) == Ok(map[0 := 5.0, 1 := -6.0, 2 := 0.0])
    ensures SolveResult(input) == Ok(One(5.0 / 6.0))
  {
    var m := map[0 := 5.0, 1 := -6.0, 2 := 0.0];
    SignedTermsDifference(Collect(lhs), Collect(rhs), m);
    SolvedLinear(input, lhs, rhs, m, 5.0 / 6.0);
  }

  /**
   * An equation of two sides whose difference `m` holds powers 0 to 2 with
   * a = 0 and b ≠ 0 reduces to `m` and has the one root x with bx = −c.
   */
  lemma SolvedLinear(input: string, lhs: seq<Term>, rhs: seq<Term>, m: Poly, x: real)
    requires Side(lhs) && Side(rhs) && input == RenderAll(lhs) + "=" + RenderAll(rhs)
    requires m == Subtract(Collect(lhs), Collect(rhs))
    requires m.Keys == {0, 1, 2} && m[2] == 0.0 && m[1] != 0.0 && x * m[1] == -m[0]
    ensures ReduceResult(Text.Stripped(input)) == Ok(m)
    ensures SolveResult(input) == Ok(One(x))
  {
    assert forall k :: k in m ==> k <= 2;
    Solved(input, lhs, rhs, m);
    Linear3(m, x);
  }

  /** An equation of two sides whose difference `m` has degree at most 2 is solved from `m`. */
  lemma Solved(input: string, lhs: seq<Term>, rhs: seq<Term>, m: Poly)
    requires Side(lhs) && Side(rhs) && input == RenderAll(lhs) + "=" + RenderAll(rhs)
    requires m == Subtract(Collect(lhs), Collect(rhs)) && forall k :: k in m ==> k <= 2
    ensures ReduceResult(Text.Stripped(input)) == Ok(m)
    ensures SolveResult(input) == Ok(CalculateCorrected(m))
  {
    Equation(input, lhs, rhs);
  }

  lemma SignedTermsDifference(l: Poly, r: Poly, m: Poly)
    requires l == map[0 := 8.0][1 := -6.0][2 := 0.0] && r == map[0 := 3.0]
    requires m == map[0 := 5.0, 1 := -6.0, 2 := 0.0]
    ensures Subtract(l, r) == m
  {
    assert Subtract(l, r).Keys == m.Keys;
  }

  /** Powers 0 to 2 with a = 0 and b ≠ 0: the one root −c / b. */
  lemma Linear3(p: Poly, x: real)
    requires p.Keys == {0, 1, 2} && p[2] == 0.0 && p[1] != 0.0 && x * p[1] == -p[0]
    ensures CalculateCorrected(p) == One(x)
  {
    assert !SingleZero(p);
  }

  /** A term with one integer digit `w` and one fraction digit `f`: its text, power and value. */
  lemma FractionTerm(t: Term, sign: Sign, w: char, f: char, pw: char)
    requires IsDigit(w) && IsDigit(f) && IsDigit(pw) && t == Term(sign, [w], Some([f]), [pw])
    ensures WellFormed(t) && Render(t) == SignText(sign) + [w] + "." + [f] + "*X^" + [pw]
    ensures Power(t) == Val(pw)
    ensures var v := Val(w) as real + Val(f) as real / 10.0;
      Coefficient(t) == if sign == Minus then -v else v
  {
    DigitValue(w);
    DigitValue(f);
    DigitValue(pw);
    assert Pow10(1) == 10.0;
  }

  /**
   * `5*X^0+4*X^1-9.3*X^2=1*X^0`: a fractional, negative coefficient of X^2
   * leaves 4 + 4x − 9.3x², with Δ = 164.8 and two roots.
   */
  lemma FractionalEquation(input: string)
    requires input == "5*X^0+4*X^1-9.3*X^2=1*X^0"
    ensures ReduceResult(Text.Stripped(input)) == Ok(map[0 := 4.0, 1 := 4.0, 2 := -9.3])
    ensures SolveResult(input) == Ok(Two(-9.3, 4.0, 164.8))
  {
    var lhs := FractionalLeft();
    var r0 := Term(Unsigned, "1", None, "0");
    OneTerm(r0, '1', '0');
    assert input == RenderAll(lhs) + "=" + RenderAll([r0]);
    FractionalSolved(input, lhs, [r0]);
  }

  /** The left side `5*X^0+4*X^1-9.3*X^2` as a term list. */
  lemma FractionalLeft() returns (lhs: seq<Term>)
    ensures Side(lhs) && RenderAll(lhs) == "5*X^0+4*X^1-9.3*X^2"
    ensures Collect(lhs) == map[0 := 5.0][1 := 4.0][2 := -9.3]
  {
    var t0, t1, t2 := Term(Unsigned, "5", None, "0"), Term(Plus, "4", None, "1"), Term(Minus, "9", Some("3"), "2");
    DigitTerm(t0, Unsigned, '5', '0');
    DigitTerm(t1, Plus, '4', '1');
    FractionTerm(t2, Minus, '9', '3', '2');
    ThreeTerms(t0, t1, t2);
    lhs := [t0, t1, t2];
  }

  /** Sides collecting into {0: 5, 1: 4, 2: −9.3} and {0: 1} leave 4 + 4x − 9.3x². */
  lemma FractionalSolved(input: string, lhs: seq<Term>, rhs: seq<Term>)
    requires Side(lhs) && Side(rhs) && input == RenderAll(lhs) + "=" + RenderAll(rhs)
    requires Collect(lhs) == map[0 := 5.0][1 := 4.0][2 := -9.3] && Collect(rhs) == map[0 := 1.0]
    ensures ReduceResult(Text.Stripped(input)) == Ok(map[0 := 4.0, 1 := 4.0, 2 := -9.3])
    ensures SolveResult(input) == Ok(Two(-9.3, 4.0, 164.8))
  {
    var m := map[0 := 4.0, 1 := 4.0, 2 := -9.3];
    FractionalDifference(Collect(lhs), Collect(rhs), m);
    assert Discriminant(-9.3, 4.0, 4.0) == 164.8;
    SolvedQuadratic(input, lhs, rhs, m, 4.0, 4.0, -9.3, 164.8);
  }

  lemma FractionalDifference(l: Poly, r: Poly, m: Poly)
    requires l == map[0 := 5.0][1 := 4.0][2 := -9.3] && r == map[0 := 1.0]
    requires m == map[0 := 4.0, 1 := 4.0, 2 := -9.3]
    ensures Subtract(l, r) == m
  {
    assert Subtract(l, r).Keys == m.Keys;
  }

  /**
   * An equation of two sides whose difference `m` holds powers 0 to 2 with
   * a ≠ 0 and a positive discriminant has two roots.
   */
  lemma SolvedQuadratic(input: string, lhs: seq<Term>, rhs: seq<Term>, m: Poly, c: real, b: real, a: real, delta: real)
    requires Side(lhs) && Side(rhs) && input == RenderAll(lhs) + "=" + RenderAll(rhs)
    requires m == Subtract(Collect(lhs), Collect(rhs))
    requires m.Keys == {0, 1, 2} && m[0] == c && m[1] == b && m[2] == a && a != 0.0
    requires delta == Discriminant(a, b, c) && delta > 0.0
    ensures ReduceResult(Text.Stripped(input)) == Ok(m)
    ensures SolveResult(input) == Ok(Two(a, b, delta))
  {
    assert forall k :: k in m ==> k <= 2;
    Solved(input, lhs, rhs, m);
    Quadratic3(m, c, b, a, delta);
  }

  /** Powers 0 to 2, a ≠ 0, positive discriminant: two roots. */
  lemma Quadratic3(p: Poly, c: real, b: real, a: real, delta: real)
    requires p.Keys == {0, 1, 2} && p[0] == c && p[1] == b && p[2] == a && a != 0.0
    requires delta == Discriminant(a, b, c) && delta > 0.0
    ensures CalculateCorrected(p) == Two(a, b, delta)
  {
    assert !SingleZero(p);
  }
}
