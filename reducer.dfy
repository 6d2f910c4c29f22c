/**
 * `reduce`: split the equation at its first '=', parse both sides, move the
 * right side over to the left (left − right), take the degree as the largest
 * power present and reject a degree above 2.
 */
module Reducer {
  import opened Results
  import opened Terms
  import Text

  /** The coefficient of power `k`, 0 when the power is absent (`unwrap_or(&0.0)`). */
  function Coef(p: Poly, k: nat): real {
    if k in p then p[k] else 0.0
  }

  /** The value of a polynomial of degree at most 2 at `x`. */
  function Eval(p: Poly, x: real): real {
    Coef(p, 0) + Coef(p, 1) * x + Coef(p, 2) * x * x
  }

  /** left − right, entry by entry, as the merge loop leaves `left_data`. */
  function Subtract(l: Poly, r: Poly): (m: Poly)
    ensures m.Keys == l.Keys + r.Keys
    ensures forall k :: k in l && k in r ==> m[k] == l[k] - r[k]
    ensures forall k :: k in l && k !in r ==> m[k] == l[k]
    ensures forall k :: k !in l && k in r ==> m[k] == -r[k]
  {
    map k | k in l.Keys + r.Keys :: Coef(l, k) - Coef(r, k)
  }

  lemma CoefSubtract(l: Poly, r: Poly, k: nat)
    ensures Coef(Subtract(l, r), k) == Coef(l, k) - Coef(r, k)
  {
  }

  lemma Difference(c: real, b: real, a: real, c': real, b': real, a': real, cd: real, bd: real, ad: real, x: real)
    requires cd == c - c' && bd == b - b' && ad == a - a'
    ensures cd + bd * x + ad * x * x == (c + b * x + a * x * x) - (c' + b' * x + a' * x * x)
  {
    assert bd * x == b * x - b' * x;
    assert ad * x == a * x - a' * x;
    assert (a * x - a' * x) * x == a * x * x - a' * x * x;
  }

  /** Moving the right side over keeps every solution: the difference evaluates to the difference. */
  lemma SubtractEval(l: Poly, r: Poly, x: real)
    ensures Eval(Subtract(l, r), x) == Eval(l, x) - Eval(r, x)
  {
    var m := Subtract(l, r);
    CoefSubtract(l, r, 0);
    CoefSubtract(l, r, 1);
    CoefSubtract(l, r, 2);
    Difference(Coef(l, 0), Coef(l, 1), Coef(l, 2), Coef(r, 0), Coef(r, 1), Coef(r, 2),
      Coef(m, 0), Coef(m, 1), Coef(m, 2), x);
  }

  /** Swapping the sides negates every entry and keeps the same powers. */
  lemma SubtractAntisymmetric(l: Poly, r: Poly)
    ensures Subtract(l, r).Keys == Subtract(r, l).Keys
    ensures forall k :: k in Subtract(l, r) ==> Subtract(l, r)[k] == -Subtract(r, l)[k]
  {
    forall k | k in Subtract(l, r) ensures Subtract(l, r)[k] == -Subtract(r, l)[k] {
      CoefSubtract(l, r, k);
      CoefSubtract(r, l, k);
    }
  }

  // ---------------------------------------------------------------------------
  // Keys in ascending order, as a BTreeMap hands them out.

  predicate Increasing(s: seq<nat>) {
    forall i, j :: 0 <= i < j < |s| ==> s[i] < s[j]
  }

  /** The smallest element of a non-empty set, found by taking elements out one at a time. */
  ghost function MinOf(s: set<nat>): (m: nat)
    requires s != {}
    ensures m in s && forall x :: x in s ==> m <= x
    decreases |s|
  {
    var y :| y in s;
    var rest := s - {y};
    if rest == {} then
      assert s == {y};
      y
    else
      var r := MinOf(rest);
      var m := if y < r then y else r;
      assert forall x :: x in s ==> m <= x by {
        forall x | x in s ensures m <= x {
          if x != y { assert x in rest; }
        }
      }
      m
  }

  /** The largest element of a non-empty set. */
  ghost function MaxOf(s: set<nat>): (m: nat)
    requires s != {}
    ensures m in s && forall x :: x in s ==> x <= m
    decreases |s|
  {
    var y :| y in s;
    var rest := s - {y};
    if rest == {} then
      assert s == {y};
      y
    else
      var r := MaxOf(rest);
      var m := if r < y then y else r;
      assert forall x :: x in s ==> x <= m by {
        forall x | x in s ensures x <= m {
          if x != y { assert x in rest; }
        }
      }
      m
  }

  /** The smallest element of a non-empty set; there is only one. */
  function Least(s: set<nat>): (m: nat)
    requires s != {}
    ensures m in s && forall x :: x in s ==> m <= x
  {
    var w := MinOf(s);
    var m :| m in s && forall x :: x in s ==> m <= x;
    m
  }

  /** The largest element of a non-empty set (`keys().max()`); there is only one. */
  function Greatest(s: set<nat>): (m: nat)
    requires s != {}
    ensures m in s && forall x :: x in s ==> x <= m
  {
    var w := MaxOf(s);
    var m :| m in s && forall x :: x in s ==> x <= m;
    m
  }

  /** The elements of a set, each once, in ascending order. */
  function SortedKeys(s: set<nat>): (r: seq<nat>)
    ensures Increasing(r)
    ensures forall k :: k in r <==> k in s
    decreases s
  {
    if s == {} then []
    else
      var m := Least(s);
      [m] + SortedKeys(s - {m})
  }

  /** `reduced.keys().max()`: no degree for an empty map, otherwise the largest power present. */
  function Degree(p: Poly): (d: Option<nat>)
    ensures d.None? <==> p == map[]
    ensures d.Some? ==> d.value in p && forall k :: k in p ==> k <= d.value
  {
    if p == map[] then None
    else
      assert p.Keys != {} by {
        var k :| k in p;
      }
      Some(Greatest(p.Keys))
  }

  // ---------------------------------------------------------------------------
  // The merge loop.

  /** A map with the keys of both sides and their differences as values is their difference. */
  lemma SubtractPointwise(l: Poly, r: Poly, m: Poly)
    requires forall k :: k in m <==> k in l || k in r
    requires forall k :: k in m ==> m[k] == Coef(l, k) - Coef(r, k)
    ensures m == Subtract(l, r)
  {
    var d := Subtract(l, r);
    assert m.Keys == d.Keys;
    forall k | k in m ensures m[k] == d[k] {
    }
  }

  /**
   * The loop over `right_data`, smallest power first: a power already on the
   * left is decreased by the right coefficient, a new power is inserted negated.
   */
  method Merge(left: Poly, right: Poly) returns (m: Poly)
    ensures m == Subtract(left, right)
  {
    m := left;
    var rest := right.Keys;
    while rest != {}
      invariant rest <= right.Keys
      invariant forall k :: k in m <==> k in left || (k in right && k !in rest)
      invariant forall k :: k in m ==> m[k] == Coef(left, k) - (if k in right && k !in rest then right[k] else 0.0)
      decreases rest
    {
      var k := Least(rest);
      if k in m {
        m := m[k := m[k] - right[k]];
      } else {
        m := m[k := -right[k]];
      }
      rest := rest - {k};
    }
    SubtractPointwise(left, right, m);
  }

  // ---------------------------------------------------------------------------
  // The whole of `reduce`.

  /** `reduce` as a function of the whitespace-free equation. */
  function ReduceResult(expression: string): (r: Result<Poly, Failure>)
    ensures r.Ok? ==> r.value != map[] && forall k :: k in r.value ==> k <= 2
  {
    match Text.SplitOnce(expression)
    case None => Err(MissingSeparator)
    case Some((x, y)) =>
      match ParseSide(x)
      case Err(f) => Err(f)
      case Ok(l) =>
        match ParseSide(y)
        case Err(f) => Err(f)
        case Ok(r) =>
          var m := Subtract(l, r);
          match Degree(m)
          case None => Err(NoPower)
          case Some(d) => if d > 2 then Err(DegreeAboveTwo) else Ok(m)
  }

  method Reduce(expression: string) returns (r: Result<Poly, Failure>)
    ensures r == ReduceResult(expression)
  {
    var parts := Text.SplitOnce(expression);
    if parts.None? {
      return Err(MissingSeparator);
    }
    var (x, y) := parts.value;
    var left := ExtractCoefficients(x);
    if left.Err? {
      return Err(left.error);
    }
    var right := ExtractCoefficients(y);
    if right.Err? {
      return Err(right.error);
    }
    var reduced := Merge(left.value, right.value);
    var degree := Degree(reduced);
    if degree.None? {
      return Err(NoPower);
    }
    if degree.value > 2 {
      return Err(DegreeAboveTwo);
    }
    return Ok(reduced);
  }

  // ---------------------------------------------------------------------------
  // What `reduce` promises.

  /** The only way to get the separator error is an equation without '='. */
  lemma MissingSeparatorExactly(expression: string)
    ensures ReduceResult(expression) == Err(MissingSeparator) <==> '=' !in expression
  {
  }

  /** Two sides that parse always leave at least one power, so "No power" never happens. */
  lemma NoPowerUnreachable(expression: string)
    ensures ReduceResult(expression) != Err(NoPower)
  {
    match Text.SplitOnce(expression)
    case None =>
    case Some((x, y)) =>
      if ParseSide(x).Ok? && ParseSide(y).Ok? {
        ParseSideNonEmpty(x);
        SubtractNonEmpty(ParseSide(x).value, ParseSide(y).value);
      }
  }

  /** Every power of the left side survives the subtraction, if only with coefficient 0. */
  lemma SubtractNonEmpty(l: Poly, r: Poly)
    requires l != map[]
    ensures Subtract(l, r) != map[]
  {
    var k :| k in l;
    assert k in Subtract(l, r);
  }

  /**
   * When both sides parse, the equation is rejected for its degree exactly when
   * some side mentions a power above 2, whatever its coefficient.
   */
  lemma DegreeAboveTwoExactly(x: string, y: string)
    requires '=' !in x && ParseSide(x).Ok? && ParseSide(y).Ok?
    ensures ReduceResult(x + "=" + y) == Err(DegreeAboveTwo) <==>
      exists k :: (k in ParseSide(x).value || k in ParseSide(y).value) && k > 2
  {
    SplitAtFirst(x, y);
    ParseSideNonEmpty(x);
  }

  /**
   * A successful reduction is the difference of the two parsed sides, and both
   * sides use only powers 0, 1 and 2.
   */
  lemma ReduceOk(x: string, y: string)
    requires '=' !in x && ReduceResult(x + "=" + y).Ok?
    ensures ParseSide(x).Ok? && ParseSide(y).Ok?
    ensures ReduceResult(x + "=" + y).value == Subtract(ParseSide(x).value, ParseSide(y).value)
    ensures forall k :: k in ParseSide(x).value || k in ParseSide(y).value ==> k <= 2
  {
    SplitAtFirst(x, y);
  }

  /** The equation is split at its first '=': what follows may hold more of them. */
  lemma SplitAtFirst(x: string, y: string)
    requires '=' !in x
    ensures Text.SplitOnce(x + "=" + y) == Some((x, y))
  {
    Text.SplitOnceFirst(x, y);
  }
}
