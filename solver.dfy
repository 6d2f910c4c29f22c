/**
 * `calculate`: the solver branch chosen from the coefficients c, b and a of
 * powers 0, 1 and 2 of the reduced polynomial, in exact real arithmetic.
 * The square root of a positive discriminant is kept symbolic: a `Two`
 * outcome carries a, b and the discriminant, and its roots are stated for
 * any non-negative s with s * s equal to the discriminant.
 */
module Solver {
  import opened Terms
  import opened Reducer

  datatype Outcome =
    | AllReals                          // every real number solves the equation
    | NoSolution                        // no real number does
    | One(x: real)                      // exactly one root
    | Two(a: real, b: real, delta: real) // (-b + √delta) / 2a, then (-b - √delta) / 2a
    | DividedByZero                     // the linear branch divided by a zero b

  /** The discriminant b² − 4ac. */
  function Discriminant(a: real, b: real, c: real): real {
    b * b - 4.0 * a * c
  }

  /** The first root of a `Two` outcome, given s = √delta. */
  function PlusRoot(a: real, b: real, s: real): real
    requires a != 0.0
  {
    (-b + s) / (2.0 * a)
  }

  /** The second root of a `Two` outcome, given s = √delta. */
  function MinusRoot(a: real, b: real, s: real): real
    requires a != 0.0
  {
    (-b - s) / (2.0 * a)
  }

  /** `data.len() == 1` and its one value is 0.0. */
  predicate SingleZero(p: Poly) {
    |p| == 1 && forall k :: k in p ==> p[k] == 0.0
  }

  /**
   * `calculate` as written: the linear branch is taken whenever a is 0 and
   * divides by b even when b is 0 as well. Every other branch is decided by
   * the coefficients alone, and a single root it returns is a root.
   */
  function Calculate(p: Poly): (o: Outcome)
    ensures o == AllReals <==> SingleZero(p)
    ensures o == DividedByZero <==> !SingleZero(p) && Coef(p, 2) == 0.0 && Coef(p, 1) == 0.0
    ensures o == NoSolution <==>
      !SingleZero(p) && Coef(p, 2) != 0.0 && Discriminant(Coef(p, 2), Coef(p, 1), Coef(p, 0)) < 0.0
    ensures o.One? ==> Eval(p, o.x) == 0.0
    ensures o.Two? ==>
      o.a == Coef(p, 2) && o.b == Coef(p, 1) && o.a != 0.0 &&
      o.delta == Discriminant(o.a, o.b, Coef(p, 0)) && o.delta > 0.0
  {
    if SingleZero(p) then AllReals
    else
      var c, b, a := Coef(p, 0), Coef(p, 1), Coef(p, 2);
      if a == 0.0 then
        if b == 0.0 then DividedByZero
        else
          var x := -c / b;
          assert x * b == -c;
          One(x)
      else
        var delta := Discriminant(a, b, c);
        if delta < 0.0 then NoSolution
        else if delta == 0.0 then
          var x := -b / (2.0 * a);
          ZeroDiscriminant(a, b, c, x);
          One(x)
        else Two(a, b, delta)
  }

  /**
   * `calculate` with the degenerate linear case decided instead of divided:
   * with a = b = 0 the equation reads c = 0, true for every x when c is 0 and
   * for none otherwise.
   */
  function CalculateCorrected(p: Poly): (o: Outcome)
    ensures o != DividedByZero
  {
    if Coef(p, 2) == 0.0 && Coef(p, 1) == 0.0 then
      if Coef(p, 0) == 0.0 then AllReals else NoSolution
    else Calculate(p)
  }

  /** Whether x belongs to the solution set an outcome announces, with s standing for √delta. */
  predicate Announces(o: Outcome, x: real, s: real) {
    match o
    case AllReals => true
    case NoSolution => false
    case One(r) => x == r
    case Two(a, b, _) => a != 0.0 && (x == PlusRoot(a, b, s) || x == MinusRoot(a, b, s))
    case DividedByZero => false
  }

  // ---------------------------------------------------------------------------
  // Real arithmetic behind each branch.

  /** 4a · (ax² + bx + c) = (2ax + b)² − (b² − 4ac). */
  lemma CompleteSquare(a: real, b: real, c: real, x: real)
    ensures 4.0 * a * (c + b * x + a * x * x) == (2.0 * a * x + b) * (2.0 * a * x + b) - Discriminant(a, b, c)
  {
  }

  /** A product of reals is zero exactly when a factor is. */
  lemma ZeroProduct(u: real, v: real)
    ensures u * v == 0.0 <==> u == 0.0 || v == 0.0
  {
  }

  /** With a ≠ 0, 2ax + b = t exactly when x = (t − b) / 2a. */
  lemma SolveLinear(a: real, b: real, t: real, x: real)
    requires a != 0.0
    ensures 2.0 * a * x + b == t <==> x == (t - b) / (2.0 * a)
  {
    if 2.0 * a * x + b == t {
      assert x * (2.0 * a) == t - b;
    }
  }

  /** Below zero there is no root: 4a · value = square − Δ never vanishes. */
  lemma NegativeDiscriminant(a: real, b: real, c: real, x: real)
    requires a != 0.0 && Discriminant(a, b, c) < 0.0
    ensures c + b * x + a * x * x != 0.0
  {
    var u := 2.0 * a * x + b;
    CompleteSquare(a, b, c, x);
    assert u * u >= 0.0;
    ZeroProduct(4.0 * a, c + b * x + a * x * x);
  }

  /** At zero the only root is −b / 2a. */
  lemma ZeroDiscriminant(a: real, b: real, c: real, x: real)
    requires a != 0.0 && Discriminant(a, b, c) == 0.0
    ensures c + b * x + a * x * x == 0.0 <==> x == -b / (2.0 * a)
  {
    var u := 2.0 * a * x + b;
    CompleteSquare(a, b, c, x);
    ZeroProduct(4.0 * a, c + b * x + a * x * x);
    ZeroProduct(u, u);
    SolveLinear(a, b, 0.0, x);
    assert (0.0 - b) / (2.0 * a) == -b / (2.0 * a);
  }

  /** Above zero the roots are (−b ± s) / 2a for s the square root of Δ. */
  lemma PositiveDiscriminant(a: real, b: real, c: real, s: real, x: real)
    requires a != 0.0 && s * s == Discriminant(a, b, c)
    ensures c + b * x + a * x * x == 0.0 <==> x == PlusRoot(a, b, s) || x == MinusRoot(a, b, s)
  {
    var u := 2.0 * a * x + b;
    CompleteSquare(a, b, c, x);
    ZeroProduct(4.0 * a, c + b * x + a * x * x);
    assert u * u - s * s == (u - s) * (u + s);
    ZeroProduct(u - s, u + s);
    SolveLinear(a, b, s, x);
    SolveLinear(a, b, -s, x);
    assert u + s == 0.0 <==> u == -s;
  }

  // ---------------------------------------------------------------------------
  // What the solver promises.

  /**
   * For a polynomial of degree at most 2, the corrected solver announces
   * exactly the real roots: x solves c + bx + ax² = 0 if and only if the
   * outcome names it (for two roots, with s any square root of Δ).
   */
  lemma CalculateCorrectedRoots(p: Poly, x: real, s: real)
    requires forall k :: k in p ==> k <= 2
    requires CalculateCorrected(p).Two? ==> s * s == CalculateCorrected(p).delta
    ensures Eval(p, x) == 0.0 <==> Announces(CalculateCorrected(p), x, s)
  {
    var c, b, a := Coef(p, 0), Coef(p, 1), Coef(p, 2);
    if SingleZero(p) {
      SingleZeroCoefs(p);
    } else if a == 0.0 && b == 0.0 {
      assert Eval(p, x) == c;
    } else if a == 0.0 {
      assert Eval(p, x) == c + b * x;
      assert c + b * x == 0.0 <==> x == -c / b by {
        if c + b * x == 0.0 {
          assert x * b == -c;
        }
      }
    } else {
      var delta := Discriminant(a, b, c);
      assert Eval(p, x) == c + b * x + a * x * x;
      if delta < 0.0 {
        NegativeDiscriminant(a, b, c, x);
      } else if delta == 0.0 {
        ZeroDiscriminant(a, b, c, x);
      } else {
        PositiveDiscriminant(a, b, c, s, x);
      }
    }
  }

  /**
   * With a positive discriminant the two roots differ, and the `+√Δ` one,
   * returned first, is the larger exactly when a is positive.
   */
  lemma TwoRootsOrder(p: Poly, s: real)
    requires CalculateCorrected(p).Two? && s >= 0.0 && s * s == CalculateCorrected(p).delta
    ensures var o := CalculateCorrected(p);
      && o.a == Coef(p, 2) && o.b == Coef(p, 1)
      && o.delta == Discriminant(Coef(p, 2), Coef(p, 1), Coef(p, 0)) && o.delta > 0.0
      && o.a != 0.0 && s > 0.0
      && (o.a > 0.0 ==> PlusRoot(o.a, o.b, s) > MinusRoot(o.a, o.b, s))
      && (o.a < 0.0 ==> PlusRoot(o.a, o.b, s) < MinusRoot(o.a, o.b, s))
  {
    var o := CalculateCorrected(p);
    var a, b := o.a, o.b;
    assert s != 0.0;
    var d := 2.0 * a;
    assert PlusRoot(a, b, s) - MinusRoot(a, b, s) == (2.0 * s) / d;
    if a > 0.0 {
      assert (2.0 * s) / d > 0.0;
    } else {
      assert (2.0 * s) / d < 0.0;
    }
  }

  /** A single zero entry leaves every coefficient 0, whichever power it sits at. */
  lemma SingleZeroCoefs(p: Poly)
    requires SingleZero(p)
    ensures Coef(p, 0) == 0.0 && Coef(p, 1) == 0.0 && Coef(p, 2) == 0.0
  {
    var k :| k in p;
    forall j | j in p ensures p[j] == 0.0 {
    }
  }

  /** The correction changes only the as-written division by zero. */
  lemma CorrectionAgrees(p: Poly)
    ensures Calculate(p) != DividedByZero ==> CalculateCorrected(p) == Calculate(p)
    ensures Calculate(p) == DividedByZero <==> !SingleZero(p) && Coef(p, 2) == 0.0 && Coef(p, 1) == 0.0
  {
  }

  /**
   * As written, `1 = 0` (only power 0, coefficient 1) reaches the division
   * −c / b with b = 0, and so does `0 = 0` written with two zero terms,
   * although every real solves it.
   */
  lemma DivisionByZeroWitnesses()
    ensures Calculate(map[0 := 1.0]) == DividedByZero
    ensures CalculateCorrected(map[0 := 1.0]) == NoSolution
    ensures Calculate(map[0 := 0.0, 1 := 0.0]) == DividedByZero
    ensures CalculateCorrected(map[0 := 0.0, 1 := 0.0]) == AllReals
  {
    assert !SingleZero(map[0 := 1.0]) by {
      assert map[0 := 1.0][0] == 1.0;
    }
    assert |map[0 := 0.0, 1 := 0.0]| == 2 by {
      assert map[0 := 0.0, 1 := 0.0].Keys == {0, 1};
    }
  }
}
