/**
 * `solve`: strip the whitespace, reduce the equation, then pick the solver
 * branch. The separator error that lib.rs raises as a panic comes back
 * as a `Failure` value, and the solver is the corrected one.
 */
module Pipeline {
  import opened Results
  import opened Terms
  import opened Reducer
  import opened Solver
  import Text

  /** The outcome of `solve` for a raw input line. */
  function SolveResult(input: string): Result<Outcome, Failure> {
    match ReduceResult(Text.Stripped(input))
    case Err(f) => Err(f)
    case Ok(p) => Ok(CalculateCorrected(p))
  }

  /** `solve`: the input is copied, its whitespace removed in place, and the rest follows. */
  method Solve(input: string) returns (r: Result<Outcome, Failure>)
    ensures r == SolveResult(input)
  {
    var buffer := new char[|input|](i requires 0 <= i < |input| => input[i]);
    assert buffer[..] == input;
    var n := Text.RemoveWhitespace(buffer);
    var reduced := Reduce(buffer[..n]);
    if reduced.Err? {
      return Err(reduced.error);
    }
    return Ok(CalculateCorrected(reduced.value));
  }

  /**
   * A solved equation: both sides parse, they use powers 0 to 2 only, and
   * the outcome announces x exactly when x makes the two sides equal (for
   * two roots, with s any square root of the discriminant).
   */
  lemma SolveRoots(input: string, lhs: string, rhs: string, x: real, s: real)
    requires Text.Stripped(input) == lhs + "=" + rhs && '=' !in lhs
    requires SolveResult(input).Ok?
    requires SolveResult(input).value.Two? ==> s * s == SolveResult(input).value.delta
    ensures ParseSide(lhs).Ok? && ParseSide(rhs).Ok?
    ensures forall k :: k in ParseSide(lhs).value || k in ParseSide(rhs).value ==> k <= 2
    ensures Eval(ParseSide(lhs).value, x) == Eval(ParseSide(rhs).value, x) <==>
      Announces(SolveResult(input).value, x, s)
  {
    var l, r := SolvedSides(input, lhs, rhs);
    CalculateCorrectedRoots(Subtract(l, r), x, s);
    SubtractEval(l, r, x);
  }

  /** A solved equation is the corrected solver applied to the difference of its parsed sides. */
  lemma SolvedSides(input: string, lhs: string, rhs: string) returns (l: Poly, r: Poly)
    requires Text.Stripped(input) == lhs + "=" + rhs && '=' !in lhs
    requires SolveResult(input).Ok?
    ensures ParseSide(lhs) == Ok(l) && ParseSide(rhs) == Ok(r)
    ensures forall k :: k in Subtract(l, r) ==> k <= 2
    ensures SolveResult(input) == Ok(CalculateCorrected(Subtract(l, r)))
  {
    ReduceOk(lhs, rhs);
    l, r := ParseSide(lhs).value, ParseSide(rhs).value;
  }

  /** The separator error is reported exactly for inputs without any '='. */
  lemma SolveMissingSeparator(input: string)
    ensures SolveResult(input) == Err(MissingSeparator) <==> '=' !in input
  {
    Text.StrippedMembers(input, '=');
    MissingSeparatorExactly(Text.Stripped(input));
  }

  /** "No power in expression" is never reported. */
  lemma SolveNeverNoPower(input: string)
    ensures SolveResult(input) != Err(NoPower)
  {
    NoPowerUnreachable(Text.Stripped(input));
  }

  /** Whitespace inserted anywhere in the input changes nothing. */
  lemma SolveIgnoresWhitespace(a: string, w: string, b: string)
    requires forall i :: 0 <= i < |w| ==> Text.IsWhitespace(w[i])
    ensures SolveResult(a + w + b) == SolveResult(a + b)
  {
    assert Text.Stripped(a + w + b) == Text.Stripped(a + b) by {
      Text.StrippedConcat(a + w, b);
      Text.StrippedConcat(a, w);
      Text.StrippedConcat(a, b);
      Text.StrippedBlank(w);
      assert Text.Stripped(a) + [] == Text.Stripped(a);
    }
  }
}
