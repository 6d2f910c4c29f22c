/**
 * The side parser `extract_coefficients`: a term grammar matched prefix by
 * prefix, and the map from power to coefficient it builds.
 *
 *   first term := [+-]? digits ('.' digits*)? '*' 'X' '^' digits
 *   later term := [+-]  digits ('.' digits*)? '*' 'X' '^' digits
 *   side       := first term (later term)*
 */
module Terms {
  import opened Results

  type Poly = map<nat, real>

  predicate IsDigit(c: char) {
    '0' <= c <= '9'
  }

  predicate AllDigits(s: string) {
    forall i :: 0 <= i < |s| ==> IsDigit(s[i])
  }

  /** The number a string of decimal digits denotes. */
  function DigitsValue(s: string): nat
    requires AllDigits(s)
  {
    if s == [] then 0
    else DigitsValue(s[..|s| - 1]) * 10 + (s[|s| - 1] as int - '0' as int)
  }

  function Pow10(k: nat): (r: real)
    ensures r >= 1.0
  {
    if k == 0 then 1.0 else 10.0 * Pow10(k - 1)
  }

  datatype Sign = Unsigned | Plus | Minus

  /** One term as it was written: sign, integer digits, optional '.' and fraction digits, power digits. */
  datatype Term = Term(sign: Sign, whole: string, fraction: Option<string>, power: string)

  predicate WellFormed(t: Term) {
    && |t.whole| > 0 && AllDigits(t.whole)
    && (t.fraction.Some? ==> AllDigits(t.fraction.value))
    && |t.power| > 0 && AllDigits(t.power)
  }

  /** The exact value of a decimal written as integer digits and optional fraction digits. */
  function Magnitude(whole: string, fraction: Option<string>): real
    requires AllDigits(whole) && (fraction.Some? ==> AllDigits(fraction.value))
  {
    DigitsValue(whole) as real
      + (if fraction.Some? then DigitsValue(fraction.value) as real / Pow10(|fraction.value|) else 0.0)
  }

  /** The exact decimal value of the coefficient's digits, with its sign. */
  function Coefficient(t: Term): real
    requires WellFormed(t)
  {
    var magnitude := Magnitude(t.whole, t.fraction);
    if t.sign == Minus then -magnitude else magnitude
  }

  function Power(t: Term): nat
    requires WellFormed(t)
  {
    DigitsValue(t.power)
  }

  function SignText(sign: Sign): string {
    match sign
    case Unsigned => ""
    case Plus => "+"
    case Minus => "-"
  }

  function FractionText(fraction: Option<string>): string {
    if fraction.Some? then "." + fraction.value else ""
  }

  /** The text of a term, as the grammar reads it. */
  function Render(t: Term): string {
    SignText(t.sign) + t.whole + FractionText(t.fraction) + "*X^" + t.power
  }

  function RenderAll(ts: seq<Term>): string {
    if ts == [] then "" else Render(ts[0]) + RenderAll(ts[1..])
  }

  /** Where the run of digits starting at `i` ends (the greedy `\d+` / `\d*`). */
  function DigitsEnd(s: string, i: nat): (j: nat)
    requires i <= |s|
    ensures i <= j <= |s|
    ensures j < |s| ==> !IsDigit(s[j])
    decreases |s| - i
  {
    if i < |s| && IsDigit(s[i]) then DigitsEnd(s, i + 1) else i
  }

  /** Every character the digit run spans is a digit. */
  lemma {:induction false} DigitsEndRun(s: string, i: nat)
    requires i <= |s|
    ensures AllDigits(s[i..DigitsEnd(s, i)])
    decreases |s| - i
  {
    if i < |s| && IsDigit(s[i]) {
      DigitsEndRun(s, i + 1);
      assert s[i..DigitsEnd(s, i)] == [s[i]] + s[i + 1..DigitsEnd(s, i + 1)];
    }
  }

  /** The optional sign at position `p` and the position after it. */
  function SignAt(s: string, p: nat): (r: (Sign, nat))
    requires p <= |s|
    ensures p <= r.1 <= |s| && s[p..r.1] == SignText(r.0)
  {
    if p < |s| && s[p] == '+' then (Plus, p + 1)
    else if p < |s| && s[p] == '-' then (Minus, p + 1)
    else (Unsigned, p)
  }

  predicate HasMarker(s: string, k: nat) {
    k + 3 <= |s| && s[k] == '*' && s[k + 1] == 'X' && s[k + 2] == '^'
  }

  /** A successful match: the term and the position just after it. */
  datatype Match = Match(term: Term, end: nat)

  /**
   * One match of the term pattern anchored at position `p` (lib.rs's FIRST
   * pattern when `signRequired` is false, its AFTER pattern when it is true).
   */
  function MatchAt(s: string, p: nat, signRequired: bool): (r: Option<Match>)
    requires p <= |s|
    ensures r.Some? ==>
      && p < r.value.end <= |s|
      && (signRequired ==> r.value.term.sign != Unsigned)
      && (r.value.end < |s| ==> !IsDigit(s[r.value.end]))
  {
    var (sign, i) := SignAt(s, p);
    var j := DigitsEnd(s, i);
    var k := if j < |s| && s[j] == '.' then DigitsEnd(s, j + 1) else j;
    if signRequired && sign == Unsigned then None
    else if j == i || !HasMarker(s, k) then None
    else
      var e := DigitsEnd(s, k + 3);
      if e == k + 3 then None
      else Some(Match(Term(sign, s[i..j], if k == j then None else Some(s[j + 1..k]), s[k + 3..e]), e))
  }

  lemma SliceJoin(s: string, a: nat, b: nat, c: nat)
    requires a <= b <= c <= |s|
    ensures s[a..c] == s[a..b] + s[b..c]
  {
  }

  /** The matched text is the rendering of a well-formed term. */
  lemma MatchAtSound(s: string, p: nat, signRequired: bool)
    requires p <= |s| && MatchAt(s, p, signRequired).Some?
    ensures var m := MatchAt(s, p, signRequired).value;
      WellFormed(m.term) && s[p..m.end] == Render(m.term)
  {
    var m := MatchAt(s, p, signRequired).value;
    var i, j, k := MatchPieces(s, p, signRequired);
    TermText(s, p, m.term, i, j, k, m.end);
  }

  /** Where the pieces of a match lie: sign, integer digits, fraction, marker, power digits. */
  lemma MatchPieces(s: string, p: nat, signRequired: bool) returns (i: nat, j: nat, k: nat)
    requires p <= |s| && MatchAt(s, p, signRequired).Some?
    ensures var m := MatchAt(s, p, signRequired).value;
      var t := m.term;
      && WellFormed(t)
      && p <= i <= j <= k && k + 3 <= m.end <= |s|
      && s[p..i] == SignText(t.sign) && s[i..j] == t.whole
      && (t.fraction.None? ==> k == j)
      && (t.fraction.Some? ==> j < k && s[j] == '.' && s[j + 1..k] == t.fraction.value)
      && HasMarker(s, k) && s[k + 3..m.end] == t.power
  {
    var sign;
    sign, i := SignAt(s, p).0, SignAt(s, p).1;
    j := DigitsEnd(s, i);
    k := if j < |s| && s[j] == '.' then DigitsEnd(s, j + 1) else j;
    DigitsEndRun(s, i);
    DigitsEndRun(s, k + 3);
    if k != j {
      DigitsEndRun(s, j + 1);
    }
  }

  /** The pieces of a match, laid side by side, are the term's rendering. */
  lemma TermText(s: string, p: nat, t: Term, i: nat, j: nat, k: nat, e: nat)
    requires p <= i <= j <= k && k + 3 <= e <= |s|
    requires s[p..i] == SignText(t.sign) && s[i..j] == t.whole
    requires t.fraction.None? ==> k == j
    requires t.fraction.Some? ==> j < k && s[j] == '.' && s[j + 1..k] == t.fraction.value
    requires HasMarker(s, k) && s[k + 3..e] == t.power
    ensures s[p..e] == Render(t)
  {
    assert s[p..j] == SignText(t.sign) + t.whole by { SliceJoin(s, p, i, j); }
    assert s[p..k] == SignText(t.sign) + t.whole + FractionText(t.fraction) by {
      if k != j {
        assert s[j..k] == "." + s[j + 1..k];
      }
      SliceJoin(s, p, j, k);
    }
    assert s[k..e] == "*X^" + s[k + 3..e];
    SliceJoin(s, p, k, e);
  }

  function Prepend(ts: seq<Term>, rest: Option<seq<Term>>): Option<seq<Term>> {
    match rest
    case None => None
    case Some(r) => Some(ts + r)
  }

  /** The later terms from position `p`: each must carry its own sign; nothing may be left over. */
  function ScanFrom(s: string, p: nat): Option<seq<Term>>
    requires p <= |s|
    decreases |s| - p
  {
    if p == |s| then Some([])
    else match MatchAt(s, p, true)
      case None => None
      case Some(m) => Prepend([m.term], ScanFrom(s, m.end))
  }

  /** A whole side: a first term whose sign is optional, then the later terms. */
  function Scan(s: string): (r: Option<seq<Term>>)
    ensures s == [] ==> r.None?
  {
    match MatchAt(s, 0, false)
    case None => None
    case Some(m) => Prepend([m.term], ScanFrom(s, m.end))
  }

  /** The term lists the grammar accepts for a side. */
  predicate Side(ts: seq<Term>) {
    && |ts| > 0
    && (forall i :: 0 <= i < |ts| ==> WellFormed(ts[i]))
    && (forall i :: 0 < i < |ts| ==> ts[i].sign != Unsigned)
  }

  /** The map the terms produce when inserted in order: a later power overwrites an earlier one. */
  function Collect(ts: seq<Term>): Poly
    requires forall i :: 0 <= i < |ts| ==> WellFormed(ts[i])
  {
    if ts == [] then map[]
    else Collect(ts[..|ts| - 1])[Power(ts[|ts| - 1]) := Coefficient(ts[|ts| - 1])]
  }

  /** `extract_coefficients` as a function of the side's text. */
  function ParseSide(s: string): Result<Poly, Failure> {
    match Scan(s)
    case None => Err(WrongFormat)
    case Some(ts) =>
      assert Side(ts) by { ScanSound(s); }
      Ok(Collect(ts))
  }

  // ---------------------------------------------------------------------------
  // The grammar: what the scanner accepts is exactly the text of a side's terms.

  /** Well-formed terms that each carry a sign: what the later-term pattern reads. */
  predicate Signed(ts: seq<Term>) {
    forall i :: 0 <= i < |ts| ==> WellFormed(ts[i]) && ts[i].sign != Unsigned
  }

  lemma {:induction false} ScanFromSound(s: string, p: nat)
    requires p <= |s| && ScanFrom(s, p).Some?
    ensures Signed(ScanFrom(s, p).value) && RenderAll(ScanFrom(s, p).value) == s[p..]
    decreases |s| - p
  {
    if p < |s| {
      var t, e := ScanFromStep(s, p);
      ScanFromSound(s, e);
      ScanFromJoin(s, p, t, e, ScanFrom(s, e).value);
    }
  }

  /** A signed term's text followed by the text of signed terms is the text of them all. */
  lemma ScanFromJoin(s: string, p: nat, t: Term, e: nat, rest: seq<Term>)
    requires p < e <= |s| && s[p..e] == Render(t) && WellFormed(t) && t.sign != Unsigned
    requires Signed(rest) && RenderAll(rest) == s[e..]
    ensures Signed([t] + rest) && RenderAll([t] + rest) == s[p..]
  {
    SignedCons(t, rest);
    SliceJoin(s, p, e, |s|);
  }

  /** A signed term before signed terms: still signed, and rendered piece by piece. */
  lemma SignedCons(t: Term, rest: seq<Term>)
    requires WellFormed(t) && t.sign != Unsigned && Signed(rest)
    ensures Signed([t] + rest) && RenderAll([t] + rest) == Render(t) + RenderAll(rest)
  {
    var ts := [t] + rest;
    assert ts[1..] == rest;
    forall i | 0 <= i < |ts|
      ensures WellFormed(ts[i]) && ts[i].sign != Unsigned
    {
      if i > 0 {
        assert ts[i] == rest[i - 1];
      }
    }
  }

  /** One later term at the front of a successful scan: its text, then the scan of the rest. */
  lemma ScanFromStep(s: string, p: nat) returns (t: Term, e: nat)
    requires p < |s| && ScanFrom(s, p).Some?
    ensures p < e <= |s| && ScanFrom(s, e).Some? && ScanFrom(s, p).value == [t] + ScanFrom(s, e).value
    ensures WellFormed(t) && t.sign != Unsigned && s[p..e] == Render(t)
  {
    var m := MatchAt(s, p, true).value;
    t, e := m.term, m.end;
    MatchAtSound(s, p, true);
  }

  /** A well-formed first term before well-formed signed terms is a side. */
  lemma SideCons(t: Term, rest: seq<Term>)
    requires WellFormed(t)
    requires Signed(rest)
    ensures Side([t] + rest) && RenderAll([t] + rest) == Render(t) + RenderAll(rest)
  {
    var ts := [t] + rest;
    assert ts[1..] == rest;
    forall i | 0 < i < |ts|
      ensures WellFormed(ts[i]) && ts[i].sign != Unsigned
    {
      assert ts[i] == rest[i - 1];
    }
  }

  /** Whatever a side parses into renders back to exactly the side's text. */
  lemma ScanSound(s: string)
    requires Scan(s).Some?
    ensures Side(Scan(s).value) && RenderAll(Scan(s).value) == s
  {
    var m := MatchAt(s, 0, false).value;
    MatchAtSound(s, 0, false);
    ScanFromSound(s, m.end);
    var rest := ScanFrom(s, m.end).value;
    SideJoin(s, m.term, m.end, rest);
    assert Scan(s).value == [m.term] + rest;
  }

  /** The first term's text followed by the text of signed terms is a side's text. */
  lemma SideJoin(s: string, t: Term, e: nat, rest: seq<Term>)
    requires e <= |s| && s[..e] == Render(t) && WellFormed(t)
    requires Signed(rest) && RenderAll(rest) == s[e..]
    ensures Side([t] + rest) && RenderAll([t] + rest) == s
  {
    SideCons(t, rest);
    assert s == s[..e] + s[e..];
  }

  lemma {:induction false} DigitsEndOf(s: string, i: nat, e: nat)
    requires i <= e <= |s| && AllDigits(s[i..e])
    requires e < |s| ==> !IsDigit(s[e])
    ensures DigitsEnd(s, i) == e
    decreases e - i
  {
    if i < e {
      assert IsDigit(s[i..e][0]);
      assert s[i + 1..e] == s[i..e][1..];
      DigitsEndOf(s, i + 1, e);
    }
  }

  /** A slice that spells `x + y` splits into a slice spelling `x` and one spelling `y`. */
  lemma SplitSlice(s: string, a: nat, b: nat, x: string, y: string)
    requires a <= b <= |s| && s[a..b] == x + y
    ensures a + |x| <= b && s[a..a + |x|] == x && s[a + |x|..b] == y
  {
    assert s[a..a + |x|] == s[a..b][..|x|];
    assert s[a + |x|..b] == s[a..b][|x|..];
  }

  lemma SignAtOf(s: string, p: nat, sign: Sign, i: nat)
    requires p <= i <= |s| && s[p..i] == SignText(sign)
    requires i < |s| ==> IsDigit(s[i])
    ensures SignAt(s, p) == (sign, i)
  {
    if i > p {
      assert s[p] == s[p..i][0];
    }
  }

  lemma MarkerAt(s: string, k: nat)
    requires k + 3 <= |s| && s[k..k + 3] == "*X^"
    ensures HasMarker(s, k)
  {
    assert s[k] == s[k..k + 3][0] && s[k + 1] == s[k..k + 3][1] && s[k + 2] == s[k..k + 3][2];
  }

  /** The positions at which a term's parts are written determine the match. */
  lemma MatchLaidOut(s: string, p: nat, t: Term, signRequired: bool, i: nat, j: nat, k: nat, e: nat)
    requires WellFormed(t)
    requires signRequired ==> t.sign != Unsigned
    requires p <= i <= j <= k && k + 3 <= e <= |s|
    requires s[p..i] == SignText(t.sign) && s[i..j] == t.whole
    requires s[j..k] == FractionText(t.fraction) && s[k..k + 3] == "*X^" && s[k + 3..e] == t.power
    requires e < |s| ==> !IsDigit(s[e])
    ensures MatchAt(s, p, signRequired) == Some(Match(t, e))
  {
    assert s[i] == s[i..j][0];
    SignAtOf(s, p, t.sign, i);
    MarkerAt(s, k);
    DigitsEndOf(s, i, j);
    if t.fraction.Some? {
      assert s[j] == s[j..k][0];
      assert s[j + 1..k] == s[j..k][1..];
      DigitsEndOf(s, j + 1, k);
    } else {
      assert k == j;
    }
    DigitsEndOf(s, k + 3, e);
  }

  /** A rendered term is matched in full, and the match stops where the next text begins. */
  lemma MatchRendered(s: string, p: nat, t: Term, signRequired: bool)
    requires WellFormed(t)
    requires signRequired ==> t.sign != Unsigned
    requires p + |Render(t)| <= |s| && s[p..p + |Render(t)|] == Render(t)
    requires p + |Render(t)| < |s| ==> !IsDigit(s[p + |Render(t)|])
    ensures MatchAt(s, p, signRequired) == Some(Match(t, p + |Render(t)|))
  {
    var sign := SignText(t.sign);
    var frac := FractionText(t.fraction);
    var i := p + |sign|;
    var j := i + |t.whole|;
    var k := j + |frac|;
    var e := k + 3 + |t.power|;
    SplitSlice(s, p, e, sign + t.whole + frac + "*X^", t.power);
    SplitSlice(s, p, k + 3, sign + t.whole + frac, "*X^");
    SplitSlice(s, p, k, sign + t.whole, frac);
    SplitSlice(s, p, j, sign, t.whole);
    MatchLaidOut(s, p, t, signRequired, i, j, k, e);
  }

  /** The first character of a rendered term list, when there is one, is not a digit. */
  lemma RenderAllStart(ts: seq<Term>)
    requires forall i :: 0 <= i < |ts| ==> ts[i].sign != Unsigned
    ensures RenderAll(ts) != [] ==> !IsDigit(RenderAll(ts)[0])
  {
    if ts != [] {
      var r := Render(ts[0]);
      assert RenderAll(ts)[0] == r[0];
      assert r[0] == SignText(ts[0].sign)[0];
    }
  }

  /** The text of a term list starts with the text of its first term. */
  lemma HeadSplit(s: string, p: nat, ts: seq<Term>)
    requires p <= |s| && s[p..] == RenderAll(ts) && ts != []
    ensures var e := p + |Render(ts[0])|;
      e <= |s| && s[p..e] == Render(ts[0]) && s[e..] == RenderAll(ts[1..])
  {
    var e := p + |Render(ts[0])|;
    assert s[p..] == Render(ts[0]) + RenderAll(ts[1..]);
    assert s[p..e] == s[p..][..e - p];
    assert s[e..] == s[p..][e - p..];
  }

  lemma {:induction false} ScanFromComplete(s: string, p: nat, ts: seq<Term>)
    requires p <= |s| && s[p..] == RenderAll(ts) && Signed(ts)
    ensures ScanFrom(s, p) == Some(ts)
    decreases |ts|
  {
    if ts != [] {
      var e := ScanFromHead(s, p, ts);
      ScanFromComplete(s, e, ts[1..]);
      ScanFromCons(s, p, Match(ts[0], e), ts[1..]);
      assert [ts[0]] + ts[1..] == ts;
    }
  }

  /** A match followed by a successful scan of the rest is a successful scan. */
  lemma ScanFromCons(s: string, p: nat, m: Match, rest: seq<Term>)
    requires p < |s| && MatchAt(s, p, true) == Some(m) && ScanFrom(s, m.end) == Some(rest)
    ensures ScanFrom(s, p) == Some([m.term] + rest)
  {
  }

  /** The first of the signed terms a text is made of is matched, and the rest follows. */
  lemma ScanFromHead(s: string, p: nat, ts: seq<Term>) returns (e: nat)
    requires p <= |s| && s[p..] == RenderAll(ts) && Signed(ts) && ts != []
    ensures p < e <= |s| && s[e..] == RenderAll(ts[1..]) && Signed(ts[1..])
    ensures p < |s| && MatchAt(s, p, true) == Some(Match(ts[0], e))
  {
    e := p + |Render(ts[0])|;
    HeadSplit(s, p, ts);
    SignedTail(ts);
    RenderAllStart(ts[1..]);
    MatchRendered(s, p, ts[0], true);
  }

  lemma SignedTail(ts: seq<Term>)
    requires Signed(ts) && ts != []
    ensures Signed(ts[1..]) && WellFormed(ts[0]) && ts[0].sign != Unsigned
  {
    var rest := ts[1..];
    forall i | 0 <= i < |rest|
      ensures WellFormed(rest[i]) && rest[i].sign != Unsigned
    {
      assert rest[i] == ts[i + 1];
    }
  }

  /** Every side's text is parsed back into its terms. */
  lemma ScanComplete(ts: seq<Term>)
    requires Side(ts)
    ensures Scan(RenderAll(ts)) == Some(ts)
  {
    var s := RenderAll(ts);
    var e := SideHead(ts);
    ScanFromComplete(s, e, ts[1..]);
    assert [ts[0]] + ts[1..] == ts;
  }

  /** The first term of a side is matched at the start of its text, and signed terms follow. */
  lemma SideHead(ts: seq<Term>) returns (e: nat)
    requires Side(ts)
    ensures var s := RenderAll(ts);
      && e <= |s| && s[e..] == RenderAll(ts[1..]) && Signed(ts[1..])
      && MatchAt(s, 0, false) == Some(Match(ts[0], e))
  {
    var s := RenderAll(ts);
    e := |Render(ts[0])|;
    HeadSplit(s, 0, ts);
    SideTail(ts);
    RenderAllStart(ts[1..]);
    MatchRendered(s, 0, ts[0], false);
  }

  /** After the first term of a side, every term is signed. */
  lemma SideTail(ts: seq<Term>)
    requires Side(ts)
    ensures Signed(ts[1..])
  {
    var rest := ts[1..];
    forall i | 0 <= i < |rest|
      ensures WellFormed(rest[i]) && rest[i].sign != Unsigned
    {
      assert rest[i] == ts[i + 1];
    }
  }

  // ---------------------------------------------------------------------------
  // The map a side builds.

  /** The powers written in a term list. */
  function Powers(ts: seq<Term>): set<nat>
    requires forall i :: 0 <= i < |ts| ==> WellFormed(ts[i])
  {
    set i | 0 <= i < |ts| :: Power(ts[i])
  }

  /** The keys are exactly the powers that were written. */
  lemma {:induction false} CollectKeys(ts: seq<Term>)
    requires forall i :: 0 <= i < |ts| ==> WellFormed(ts[i])
    ensures Collect(ts).Keys == Powers(ts)
  {
    if ts != [] {
      var init := ts[..|ts| - 1];
      CollectKeys(init);
      var last := Power(ts[|ts| - 1]);
      assert Powers(ts) == Powers(init) + {last} by {
        forall k | k in Powers(ts) ensures k in Powers(init) + {last} {
          var i :| 0 <= i < |ts| && Power(ts[i]) == k;
          if i < |init| {
            assert Power(init[i]) == k;
          }
        }
        forall k | k in Powers(init) ensures k in Powers(ts) {
          var i :| 0 <= i < |init| && Power(init[i]) == k;
          assert Power(ts[i]) == k;
        }
      }
    }
  }

  /** A power written several times keeps the coefficient of its last occurrence. */
  lemma {:induction false} CollectLastWins(ts: seq<Term>, i: nat)
    requires forall j :: 0 <= j < |ts| ==> WellFormed(ts[j])
    requires i < |ts|
    requires forall j :: i < j < |ts| ==> Power(ts[j]) != Power(ts[i])
    ensures Power(ts[i]) in Collect(ts) && Collect(ts)[Power(ts[i])] == Coefficient(ts[i])
  {
    if i < |ts| - 1 {
      var init := ts[..|ts| - 1];
      CollectLastWins(init, i);
    }
  }

  /** A side that parses yields at least one entry; the empty side is rejected. */
  lemma ParseSideNonEmpty(s: string)
    ensures s == [] ==> ParseSide(s) == Err(WrongFormat)
    ensures ParseSide(s).Ok? ==> ParseSide(s).value != map[]
  {
    if ParseSide(s).Ok? {
      var ts := Scan(s).value;
      ScanSound(s);
      CollectKeys(ts);
      assert Power(ts[0]) in Powers(ts);
    }
  }

  // ---------------------------------------------------------------------------
  // The scanning loop of `extract_coefficients`.

  /** One turn of the scanning loop: the next term joins those already read. */
  lemma ScanStep(s: string, pos: nat, ts: seq<Term>)
    requires pos < |s| && MatchAt(s, pos, true).Some?
    requires Scan(s) == Prepend(ts, ScanFrom(s, pos))
    ensures var m := MatchAt(s, pos, true).value;
      Scan(s) == Prepend(ts + [m.term], ScanFrom(s, m.end))
  {
    var m := MatchAt(s, pos, true).value;
    var later := ScanFrom(s, m.end);
    assert ScanFrom(s, pos) == Prepend([m.term], later);
    if later.Some? {
      assert ts + ([m.term] + later.value) == (ts + [m.term]) + later.value;
    }
  }

  /** Inserting one more well-formed term into the map. */
  lemma CollectSnoc(ts: seq<Term>, t: Term)
    requires forall i :: 0 <= i < |ts| ==> WellFormed(ts[i])
    requires WellFormed(t)
    ensures forall i :: 0 <= i < |ts + [t]| ==> WellFormed((ts + [t])[i])
    ensures Collect(ts + [t]) == Collect(ts)[Power(t) := Coefficient(t)]
  {
    assert (ts + [t])[..|ts|] == ts;
  }

  method ExtractCoefficients(s: string) returns (r: Result<Poly, Failure>)
    ensures r == ParseSide(s)
  {
    var first := MatchAt(s, 0, false);
    if first.None? {
      return Err(WrongFormat);
    }
    MatchAtSound(s, 0, false);
    var t := first.value.term;
    var pos := first.value.end;
    var data: Poly := map[Power(t) := Coefficient(t)];
    ghost var ts := [t];
    assert Collect(ts) == data by { assert ts[..0] == []; }
    while pos < |s|
      invariant pos <= |s|
      invariant forall i :: 0 <= i < |ts| ==> WellFormed(ts[i])
      invariant Scan(s) == Prepend(ts, ScanFrom(s, pos))
      invariant data == Collect(ts)
      decreases |s| - pos
    {
      var after := MatchAt(s, pos, true);
      if after.None? {
        return Err(WrongFormat);
      }
      var u := after.value.term;
      MatchAtSound(s, pos, true);
      ScanStep(s, pos, ts);
      CollectSnoc(ts, u);
      data := data[Power(u) := Coefficient(u)];
      ts := ts + [u];
      pos := after.value.end;
    }
    assert ts + [] == ts;
    return Ok(data);
  }

  /** A repeated power within one side: the later coefficient is kept. */
  lemma RepeatedPowerOverwrites()
    ensures ParseSide("1*X^1+2*X^1") == Ok(map[1 := 2.0])
  {
    var ts := [Term(Unsigned, "1", None, "1"), Term(Plus, "2", None, "1")];
    ExampleTerms(ts);
    ScanComplete(ts);
  }

  lemma ExampleTerms(ts: seq<Term>)
    requires ts == [Term(Unsigned, "1", None, "1"), Term(Plus, "2", None, "1")]
    ensures Side(ts) && RenderAll(ts) == "1*X^1+2*X^1" && Collect(ts) == map[1 := 2.0]
  {
    var t1 := ts[0];
    var t2 := ts[1];
    assert DigitsValue("1") == 1 by { assert "1"[..0] == []; }
    assert DigitsValue("2") == 2 by { assert "2"[..0] == []; }
    assert Render(t1) == "1*X^1";
    assert Render(t2) == "+2*X^1";
    assert ts[1..] == [t2];
    assert RenderAll([t2]) == "+2*X^1" by { assert [t2][1..] == []; }
    assert ts[..1] == [t1];
    assert [t1][..0] == [];
    assert Collect([t1]) == map[1 := 1.0];
  }
}
