/**
 * `print_reduced`: the "Reduced form" line, one entry per power in ascending
 * order, the leading "+ " trimmed, closed by "= 0".
 */
module Format {
  import opened Results
  import opened Terms
  import opened Reducer
  import Text

  /**
   * How a non-negative number is displayed: integer digits and, when the value
   * is not whole, the fraction digits after a '.'. Which digits are chosen is
   * left to a `show` parameter.
   */
  datatype Numeral = Numeral(whole: string, fraction: Option<string>)

  function NumeralText(n: Numeral): string {
    n.whole + FractionText(n.fraction)
  }

  /** The decimal digits of a power, most significant first, as `{}` prints a `u64`. */
  function NatDigits(n: nat): (r: string)
    ensures |r| > 0 && AllDigits(r)
  {
    if n < 10 then [Digit(n)] else NatDigits(n / 10) + [Digit(n % 10)]
  }

  function Digit(d: nat): (c: char)
    requires d < 10
    ensures IsDigit(c)
  {
    ('0' as int + d) as char
  }

  /** Printing a power and reading it back gives the same power. */
  lemma {:induction false} NatDigitsValue(n: nat)
    ensures DigitsValue(NatDigits(n)) == n
  {
    var r := NatDigits(n);
    if n < 10 {
      assert r[..0] == [];
    } else {
      NatDigitsValue(n / 10);
      assert r[..|r| - 1] == NatDigits(n / 10);
    }
  }

  /** One entry: `- |v| * X^k ` for a negative value, `+ v * X^k ` otherwise. */
  function Entry(k: nat, v: real, show: real -> Numeral): string {
    if v < 0.0 then "- " + EntryTail(k, -v, show) else "+ " + EntryTail(k, v, show)
  }

  /** What follows an entry's sign: `{} * X^{} ` with the magnitude `m` and the power. */
  function EntryTail(k: nat, m: real, show: real -> Numeral): string {
    NumeralText(show(m)) + " * X^" + NatDigits(k) + " "
  }

  /** The entries for the powers `ks`, in the order given. */
  function Body(p: Poly, ks: seq<nat>, show: real -> Numeral): string {
    if ks == [] then "" else Entry(ks[0], Coef(p, ks[0]), show) + Body(p, ks[1..], show)
  }

  /** `str::trim_start_matches`: drops `pat` from the front as long as it is there. */
  function TrimStartMatches(s: string, pat: string): (r: string)
    requires pat != []
    ensures |r| <= |s|
    ensures !(pat <= r)
    decreases |s|
  {
    if pat <= s then TrimStartMatches(s[|pat|..], pat) else s
  }

  function Repeat(pat: string, n: nat): string {
    if n == 0 then "" else pat + Repeat(pat, n - 1)
  }

  /** What was trimmed is a whole number of copies of the pattern. */
  lemma {:induction false} TrimmedCopies(s: string, pat: string) returns (n: nat)
    requires pat != []
    ensures s == Repeat(pat, n) + TrimStartMatches(s, pat)
    decreases |s|
  {
    if pat <= s {
      var tail := s[|pat|..];
      var m := TrimmedCopies(tail, pat);
      n := m + 1;
      assert s == pat + tail;
      assert TrimStartMatches(s, pat) == TrimStartMatches(tail, pat);
      Associate(pat, Repeat(pat, m), TrimStartMatches(tail, pat));
    } else {
      n := 0;
      assert Repeat(pat, 0) + s == s;
    }
  }

  /** The whole line `print_reduced` prints. */
  function ReducedLine(p: Poly, show: real -> Numeral): string {
    "Reduced form: " + TrimStartMatches(Body(p, SortedKeys(p.Keys), show), "+ ") + "= 0"
  }

  /** The loop of `print_reduced`: the entries appended to a string, smallest power first. */
  method PrintReduced(p: Poly, show: real -> Numeral) returns (line: string)
    ensures line == ReducedLine(p, show)
  {
    var ks := SortedKeys(p.Keys);
    ghost var all := Body(p, ks, show);
    var expression := "";
    var i := 0;
    while i < |ks|
      invariant i <= |ks|
      invariant expression + Body(p, ks[i..], show) == all
    {
      var entry := Entry(ks[i], Coef(p, ks[i]), show);
      ghost var rest := Body(p, ks[i + 1..], show);
      BodyStep(p, ks, i, show);
      Associate(expression, entry, rest);
      expression := expression + entry;
      i := i + 1;
    }
    assert Body(p, ks[i..], show) == "";
    assert expression == all;
    line := "Reduced form: " + TrimStartMatches(expression, "+ ") + "= 0";
  }

  /** The entries from position `i` on: the entry at `i`, then the rest. */
  lemma BodyStep(p: Poly, ks: seq<nat>, i: nat, show: real -> Numeral)
    requires i < |ks|
    ensures Body(p, ks[i..], show) == Entry(ks[i], Coef(p, ks[i]), show) + Body(p, ks[i + 1..], show)
  {
    assert ks[i..][1..] == ks[i + 1..];
  }

  lemma Associate(a: string, b: string, c: string)
    ensures a + (b + c) == (a + b) + c
  {
  }

  // ---------------------------------------------------------------------------
  // Reading the reduced form back: with whitespace removed, the text before
  // "= 0" is a side the term parser accepts, and it denotes the same polynomial
  // whenever each number is displayed exactly.

  /** A display of a non-negative number: at least one integer digit, then optional fraction digits. */
  predicate ValidNumeral(n: Numeral) {
    |n.whole| > 0 && AllDigits(n.whole) && (n.fraction.Some? ==> AllDigits(n.fraction.value))
  }

  function Abs(v: real): real {
    if v < 0.0 then -v else v
  }

  /** Every coefficient of `p` is displayed by `show` with digits whose value is that coefficient's magnitude. */
  predicate ExactFor(p: Poly, show: real -> Numeral) {
    forall k :: k in p ==>
      var n := show(Abs(p[k]));
      ValidNumeral(n) && Magnitude(n.whole, n.fraction) == Abs(p[k])
  }

  /** The term an entry reads as once its spaces are gone. */
  function EntryTerm(k: nat, v: real, show: real -> Numeral): Term {
    var n := show(Abs(v));
    Term(if v < 0.0 then Minus else Plus, n.whole, n.fraction, NatDigits(k))
  }

  function EntryTerms(p: Poly, ks: seq<nat>, show: real -> Numeral): (ts: seq<Term>)
    ensures |ts| == |ks| && forall i :: 0 <= i < |ks| ==> ts[i] == EntryTerm(ks[i], Coef(p, ks[i]), show)
  {
    seq(|ks|, i requires 0 <= i < |ks| => EntryTerm(ks[i], Coef(p, ks[i]), show))
  }

  /** The first term loses its '+': `trim_start_matches("+ ")` removed it. */
  function DropLeadingPlus(ts: seq<Term>): (r: seq<Term>)
    ensures |r| == |ts| && (ts != [] ==> r[1..] == ts[1..])
  {
    if ts != [] && ts[0].sign == Plus then [ts[0].(sign := Unsigned)] + ts[1..] else ts
  }

  predicate NoSpace(s: string) {
    forall i :: 0 <= i < |s| ==> !Text.IsWhitespace(s[i])
  }

  lemma DigitsNoSpace(s: string)
    requires AllDigits(s)
    ensures NoSpace(s)
  {
    forall i | 0 <= i < |s| ensures !Text.IsWhitespace(s[i]) {
      assert IsDigit(s[i]);
    }
  }

  lemma NumeralNoSpace(n: Numeral)
    requires ValidNumeral(n)
    ensures NoSpace(NumeralText(n))
  {
    DigitsNoSpace(n.whole);
    if n.fraction.Some? {
      DigitsNoSpace(n.fraction.value);
    }
    var t := NumeralText(n);
    forall i | 0 <= i < |t| ensures !Text.IsWhitespace(t[i]) {
      if i >= |n.whole| + 1 {
        assert t[i] == n.fraction.value[i - |n.whole| - 1];
      }
    }
  }

  lemma StrippedChar(c: char)
    ensures Text.Stripped([c]) == if Text.IsWhitespace(c) then [] else [c]
  {
    assert [c][..0] == [];
  }

  /** Stripping the fixed pieces of an entry. */
  lemma LiteralsStripped()
    ensures Text.Stripped("- ") == "-" && Text.Stripped("+ ") == "+"
    ensures Text.Stripped(" * X^") == "*X^" && Text.Stripped(" ") == ""
  {
    SignStripped('-');
    assert "-" + " " == "- ";
    SignStripped('+');
    assert "+" + " " == "+ ";
    MarkerStripped();
    StrippedChar(' ');
  }

  /** A sign followed by a space strips to the sign. */
  lemma SignStripped(c: char)
    requires !Text.IsWhitespace(c)
    ensures Text.Stripped([c] + " ") == [c]
  {
    StrippedChar(c);
    StrippedSnoc([c], ' ', [c], [c]);
  }

  lemma MarkerStripped()
    ensures Text.Stripped(" * X^") == "*X^"
  {
    assert Text.Stripped(" *") == "*" by {
      StrippedChar(' ');
      StrippedSnoc(" ", '*', "", "*");
      assert " " + ['*'] == " *";
    }
    assert Text.Stripped(" * ") == "*" by {
      StrippedSnoc(" *", ' ', "*", "*");
      assert " *" + [' '] == " * ";
    }
    assert Text.Stripped(" * X") == "*X" by {
      StrippedSnoc(" * ", 'X', "*", "*X");
      assert " * " + ['X'] == " * X";
    }
    StrippedSnoc(" * X", '^', "*X", "*X^");
    assert " * X" + ['^'] == " * X^";
  }

  /** One more character after a string whose stripped form is known. */
  lemma StrippedSnoc(a: string, c: char, before: string, after: string)
    requires Text.Stripped(a) == before
    requires after == before + (if Text.IsWhitespace(c) then [] else [c])
    ensures Text.Stripped(a + [c]) == after
  {
    assert (a + [c])[..|a|] == a;
  }

  lemma TailStripped(k: nat, m: real, show: real -> Numeral)
    requires ValidNumeral(show(m))
    ensures Text.Stripped(EntryTail(k, m, show)) == NumeralText(show(m)) + "*X^" + NatDigits(k)
  {
    var num := NumeralText(show(m));
    var d := NatDigits(k);
    NumeralNoSpace(show(m));
    DigitsNoSpace(d);
    Text.StrippedIdentity(num);
    Text.StrippedIdentity(d);
    LiteralsStripped();
    Text.StrippedConcat(num + " * X^" + d, " ");
    Text.StrippedConcat(num + " * X^", d);
    Text.StrippedConcat(num, " * X^");
  }

  /** An entry with its spaces removed is the rendering of its term. */
  lemma EntryRender(k: nat, v: real, show: real -> Numeral)
    requires ValidNumeral(show(Abs(v)))
    ensures Text.Stripped(Entry(k, v, show)) == Render(EntryTerm(k, v, show))
  {
    var n := show(Abs(v));
    var tail := EntryTail(k, Abs(v), show);
    TailStripped(k, Abs(v), show);
    LiteralsStripped();
    if v < 0.0 {
      Text.StrippedConcat("- ", tail);
    } else {
      Text.StrippedConcat("+ ", tail);
    }
    RenderSigned(EntryTerm(k, v, show));
  }

  /** A term's text is its sign's text before its unsigned text. */
  lemma RenderSigned(t: Term)
    ensures Render(t) == SignText(t.sign) + (NumeralText(Numeral(t.whole, t.fraction)) + "*X^" + t.power)
  {
    var a, b, c, d, e := SignText(t.sign), t.whole, FractionText(t.fraction), "*X^", t.power;
    Associate(a, b, c);
    Associate(a, b + c, d);
    Associate(a, b + c + d, e);
  }

  /** Every value met along `ks` is displayed as a valid numeral. */
  predicate ValidAlong(p: Poly, ks: seq<nat>, show: real -> Numeral) {
    forall i :: 0 <= i < |ks| ==> ValidNumeral(show(Abs(Coef(p, ks[i]))))
  }

  lemma {:induction false} BodyRender(p: Poly, ks: seq<nat>, show: real -> Numeral)
    requires ValidAlong(p, ks, show)
    ensures Text.Stripped(Body(p, ks, show)) == RenderAll(EntryTerms(p, ks, show))
  {
    if ks != [] {
      var ts := EntryTerms(p, ks, show);
      assert ts[1..] == EntryTerms(p, ks[1..], show);
      assert ValidAlong(p, ks[1..], show) by {
        forall i | 0 <= i < |ks[1..]| ensures ValidNumeral(show(Abs(Coef(p, ks[1..][i])))) {
          assert ks[1..][i] == ks[i + 1];
        }
      }
      BodyRender(p, ks[1..], show);
      EntryRender(ks[0], Coef(p, ks[0]), show);
      Text.StrippedConcat(Entry(ks[0], Coef(p, ks[0]), show), Body(p, ks[1..], show));
    }
  }

  /**
   * Trimming removes exactly the '+ ' of a non-negative first entry (the
   * number after it starts with a digit, so no second copy follows), and
   * nothing when the first entry is negative.
   */
  lemma TrimmedRender(p: Poly, ks: seq<nat>, show: real -> Numeral)
    requires ks != [] && ValidAlong(p, ks, show)
    ensures Text.Stripped(TrimStartMatches(Body(p, ks, show), "+ ")) == RenderAll(DropLeadingPlus(EntryTerms(p, ks, show)))
  {
    var v := Coef(p, ks[0]);
    var ts := EntryTerms(p, ks, show);
    var us := DropLeadingPlus(ts);
    var later := Body(p, ks[1..], show);
    var b := Body(p, ks, show);
    assert ts[1..] == EntryTerms(p, ks[1..], show);
    assert ValidAlong(p, ks[1..], show) by {
      forall i | 0 <= i < |ks[1..]| ensures ValidNumeral(show(Abs(Coef(p, ks[1..][i])))) {
        assert ks[1..][i] == ks[i + 1];
      }
    }
    BodyRender(p, ks[1..], show);
    assert Text.Stripped(later) == RenderAll(ts[1..]);
    assert RenderAll(us) == Render(us[0]) + RenderAll(ts[1..]);
    if v < 0.0 {
      TrimNegative(ks[0], v, show, later);
      EntryRender(ks[0], v, show);
      Text.StrippedConcat(Entry(ks[0], v, show), later);
      assert us == ts;
    } else {
      var tail := EntryTail(ks[0], v, show);
      TrimPositive(ks[0], v, show, later);
      TailStripped(ks[0], v, show);
      Text.StrippedConcat(tail, later);
      RenderSigned(us[0]);
      assert Render(us[0]) == Text.Stripped(tail);
    }
  }

  /** A negative first entry starts with '-': nothing is trimmed. */
  lemma TrimNegative(k: nat, v: real, show: real -> Numeral, later: string)
    requires v < 0.0
    ensures TrimStartMatches(Entry(k, v, show) + later, "+ ") == Entry(k, v, show) + later
  {
    var b := Entry(k, v, show) + later;
    assert b[0] == '-';
  }

  /** A non-negative first entry loses its "+ " and nothing more: a digit follows it. */
  lemma TrimPositive(k: nat, v: real, show: real -> Numeral, later: string)
    requires v >= 0.0 && ValidNumeral(show(v))
    ensures TrimStartMatches(Entry(k, v, show) + later, "+ ") == EntryTail(k, v, show) + later
  {
    var n := show(v);
    var rest := EntryTail(k, v, show) + later;
    assert Entry(k, v, show) + later == "+ " + rest;
    assert rest[0] == n.whole[0];
    assert IsDigit(n.whole[0]);
    assert !("+ " <= rest);
    TrimOnce("+ ", rest);
  }

  /** One copy of the pattern in front of text that does not start with it is trimmed, and no more. */
  lemma TrimOnce(pat: string, rest: string)
    requires pat != [] && !(pat <= rest)
    ensures TrimStartMatches(pat + rest, pat) == rest
  {
    assert pat <= pat + rest;
    assert (pat + rest)[|pat|..] == rest;
  }

  /** An exact display gives every entry's term back its power and its coefficient. */
  lemma EntryTermValue(k: nat, v: real, show: real -> Numeral)
    requires ValidNumeral(show(Abs(v))) && Magnitude(show(Abs(v)).whole, show(Abs(v)).fraction) == Abs(v)
    ensures WellFormed(EntryTerm(k, v, show))
    ensures Power(EntryTerm(k, v, show)) == k && Coefficient(EntryTerm(k, v, show)) == v
  {
    NatDigitsValue(k);
  }

  /**
   * The reduced form round-trips: for a non-empty polynomial whose values are
   * displayed exactly, the text of `print_reduced` before "= 0", with its
   * whitespace removed, parses back to the same polynomial.
   */
  lemma ReducedFormParses(p: Poly, show: real -> Numeral)
    requires p != map[] && ExactFor(p, show)
    ensures var line := ReducedLine(p, show);
      var body := TrimStartMatches(Body(p, SortedKeys(p.Keys), show), "+ ");
      line == "Reduced form: " + body + "= 0" && ParseSide(Text.Stripped(body)) == Ok(p)
  {
    var us := ReducedTerms(p, show);
    ScanComplete(us);
  }

  /** The terms the reduced form reads as: a side, rendering as the stripped text, collecting into `p`. */
  lemma ReducedTerms(p: Poly, show: real -> Numeral) returns (us: seq<Term>)
    requires p != map[] && ExactFor(p, show)
    ensures Side(us) && Collect(us) == p
    ensures Text.Stripped(TrimStartMatches(Body(p, SortedKeys(p.Keys), show), "+ ")) == RenderAll(us)
  {
    var ks := SortedKeys(p.Keys);
    assert ks != [] by {
      var k :| k in p;
      assert k in ks;
    }
    us := SortedTerms(p, ks, show);
    TrimmedRender(p, ks, show);
  }

  /** The entry terms of the sorted keys, first one unsigned, form a side that collects into `p`. */
  lemma SortedTerms(p: Poly, ks: seq<nat>, show: real -> Numeral) returns (us: seq<Term>)
    requires ExactFor(p, show) && ks != []
    requires Increasing(ks) && forall k :: k in ks <==> k in p
    ensures ValidAlong(p, ks, show)
    ensures us == DropLeadingPlus(EntryTerms(p, ks, show)) && Side(us) && Collect(us) == p
  {
    var ts := EntryTerms(p, ks, show);
    us := DropLeadingPlus(ts);
    EntryFacts(p, ks, show);
    CollectIsPoly(p, ks, ts, us);
    LaterSigned(p, ks, show);
  }

  /** After the first entry term every term keeps its sign. */
  lemma LaterSigned(p: Poly, ks: seq<nat>, show: real -> Numeral)
    ensures var us := DropLeadingPlus(EntryTerms(p, ks, show));
      forall i :: 0 < i < |us| ==> us[i].sign != Unsigned
  {
    var ts := EntryTerms(p, ks, show);
    var us := DropLeadingPlus(ts);
    forall i | 0 < i < |us| ensures us[i].sign != Unsigned {
      assert us[i] == us[1..][i - 1] == ts[i];
    }
  }

  /** Along the sorted keys every display is valid and every entry term carries its key and value. */
  lemma EntryFacts(p: Poly, ks: seq<nat>, show: real -> Numeral)
    requires ExactFor(p, show) && forall k :: k in ks ==> k in p
    ensures ValidAlong(p, ks, show)
    ensures forall i :: 0 <= i < |ks| ==>
      var t := EntryTerms(p, ks, show)[i];
      WellFormed(t) && Power(t) == ks[i] && Coefficient(t) == p[ks[i]]
  {
    var ts := EntryTerms(p, ks, show);
    forall i | 0 <= i < |ks|
      ensures ValidNumeral(show(Abs(Coef(p, ks[i]))))
      ensures WellFormed(ts[i]) && Power(ts[i]) == ks[i] && Coefficient(ts[i]) == p[ks[i]]
    {
      assert ks[i] in ks;
      EntryTermValue(ks[i], p[ks[i]], show);
    }
  }

  /** The terms of the sorted entries, first one unsigned, collect into the polynomial itself. */
  lemma CollectIsPoly(p: Poly, ks: seq<nat>, ts: seq<Term>, us: seq<Term>)
    requires Increasing(ks) && (forall k :: k in ks <==> k in p)
    requires |ts| == |ks| && us == DropLeadingPlus(ts)
    requires forall i :: 0 <= i < |ks| ==>
      WellFormed(ts[i]) && Power(ts[i]) == ks[i] && Coefficient(ts[i]) == p[ks[i]]
    ensures forall i :: 0 <= i < |us| ==> WellFormed(us[i])
    ensures Collect(us) == p
  {
    forall i | 0 <= i < |us|
      ensures WellFormed(us[i]) && Power(us[i]) == ks[i] && Coefficient(us[i]) == p[ks[i]]
    {
      if i > 0 {
        assert us[i] == us[1..][i - 1] == ts[i];
      } else if ts[0].sign == Plus {
        var t := ts[0];
        assert us[0] == t.(sign := Unsigned);
        assert Coefficient(us[0]) == Magnitude(t.whole, t.fraction) == Coefficient(t);
      } else {
        assert us[0] == ts[0];
      }
    }
    CollectSorted(p, ks, us);
  }

  /** Terms whose powers run through the sorted keys, each with its key's value, collect into the map. */
  lemma CollectSorted(p: Poly, ks: seq<nat>, us: seq<Term>)
    requires Increasing(ks) && (forall k :: k in ks <==> k in p) && |us| == |ks|
    requires forall i :: 0 <= i < |us| ==>
      WellFormed(us[i]) && Power(us[i]) == ks[i] && Coefficient(us[i]) == p[ks[i]]
    ensures Collect(us) == p
  {
    var m := Collect(us);
    PowersAreKeys(p, ks, us);
    forall k | k in p ensures m[k] == p[k] {
      var i :| 0 <= i < |ks| && ks[i] == k;
      CollectLastWins(us, i);
    }
  }

  /** The powers of the terms are the keys of the map. */
  lemma PowersAreKeys(p: Poly, ks: seq<nat>, us: seq<Term>)
    requires (forall k :: k in ks <==> k in p) && |us| == |ks|
    requires forall i :: 0 <= i < |us| ==> WellFormed(us[i]) && Power(us[i]) == ks[i]
    ensures Collect(us).Keys == p.Keys
  {
    CollectKeys(us);
    forall k | k in Powers(us) ensures k in p {
      var i :| 0 <= i < |us| && Power(us[i]) == k;
      assert ks[i] in ks;
    }
    forall k | k in p ensures k in Powers(us) {
      var i :| 0 <= i < |ks| && ks[i] == k;
      assert Power(us[i]) == k;
    }
  }
}
